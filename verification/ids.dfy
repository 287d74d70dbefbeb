/** Iterative deepening search over a graph of node indices: depth-limited
    searches with limits 0, 1, …, maxDepth. Each round starts a fresh budget
    table holding only the source, at the round's limit; a neighbour is
    entered only when the current call's limit is strictly larger than the
    one recorded for it, and is recorded with that limit before the search
    descends into it. Parent links are written only while a successful
    search unwinds, so the links of the one successful round are the only
    ones ever written, and they spell out the route found. */
module Ids {
  import opened Common
  import opened Unweighted
  import opened Chains
  import opened DepthLimit

  /** The adjacency lists as the budget theory reads them: a node of the
      graph maps to its list. */
  function AsEdges(adj: Graph): (e: Edges<nat>)
    ensures forall u: nat :: u in e <==> u < |adj|
    ensures forall u :: 0 <= u < |adj| ==> e[u] == adj[u]
  {
    map u: nat | u < |adj| :: adj[u]
  }

  /** Every path of the graph is a trail of its edge map. */
  lemma PathTrail(adj: Graph, p: seq<nat>)
    requires IsPath(adj, p)
    ensures Trail(AsEdges(adj), p)
  {
    var e := AsEdges(adj);
    forall i | 0 <= i < |p| - 1 ensures p[i] in e && p[i + 1] in e[p[i]] {
      assert e[p[i]] == adj[p[i]];
    }
  }

  /** What a successful search from `u` leaves behind: a repetition-free path
      `p` of at most `limit` steps from `u` to `t` that avoids the call stack,
      with the parent of every later node set to the node before it and
      every other parent left alone. */
  ghost predicate Traced(adj: Graph, parents0: seq<int>, parents: seq<int>, u: nat, t: nat,
                         limit: nat, stack: set<nat>, p: seq<nat>)
  {
    && PathFromTo(adj, p, u, t) && |p| <= limit + 1 && NoDup(p)
    && (forall j :: 0 <= j < |p| ==> p[j] !in stack)
    && |parents0| == |adj| && |parents| == |adj|
    && (forall j :: 0 < j < |p| ==> p[j] < |parents| && parents[p[j]] == p[j - 1])
    && (forall x :: 0 <= x < |parents| && x !in p[1..] ==> parents[x] == parents0[x])
  }

  /** A successful search from the neighbour `v` of `u` extends to one from `u`
      once the parent of `v` is set to `u`. */
  lemma TracedCons(adj: Graph, parents0: seq<int>, parents: seq<int>, u: nat, v: nat, t: nat,
                   limit: nat, stack: set<nat>, q: seq<nat>)
    requires ValidGraph(adj) && u < |adj| && v in adj[u] && limit > 0 && u !in stack
    requires Traced(adj, parents0, parents, v, t, limit - 1, stack + {u}, q)
    ensures Traced(adj, parents0, parents[v := u], u, t, limit, stack, [u] + q)
  {
    var p := [u] + q;
    assert p[1..] == q;
    forall j | 0 < j < |p| ensures p[j] < |parents| && parents[v := u][p[j]] == p[j - 1] {
      if j > 1 {
        assert q[j - 1] != q[0];
      }
    }
  }

  /** The depth-limited search from `u` with remaining limit `limit`, writing
      the parent links of the route on success. The ghost `src` is the round's
      source and `stack` the nodes of the calls still open above this one. */
  method Dls(adj: Graph, parents0: seq<int>, rec0: map<nat, nat>, u: nat, t: nat, limit: nat,
             ghost src: nat, ghost stack: set<nat>)
    returns (found: bool, parents: seq<int>, rec: map<nat, nat>, ghost p: seq<nat>)
    requires ValidGraph(adj) && u < |adj| && |parents0| == |adj|
    requires u in rec0 && rec0[u] == (if u == src then limit else limit + 1)
    requires u !in stack && (u == src || src in stack)
    requires forall a :: a in stack ==> a in rec0 && rec0[a] > limit
    requires Settled(AsEdges(adj), rec0, t, src, stack + {u})
    decreases limit, 1
    ensures |parents| == |adj|
    ensures Grown(rec0, rec) && KeptFrom(rec0, rec, limit)
    ensures u == t ==> found && p == [u] && parents == parents0
    ensures u != t && limit == 0 ==> !found
    ensures found ==> Traced(adj, parents0, parents, u, t, limit, stack, p)
    ensures !found ==> parents == parents0 && Settled(AsEdges(adj), rec, t, src, stack)
  {
    found, parents, rec, p := false, parents0, rec0, [];
    if u == t {
      found, p := true, [u];
      return;
    }
    if limit == 0 {
      Leave(AsEdges(adj), rec, t, src, stack, u, 0);
      return;
    }
    var i := 0;
    while i < |adj[u]|
      invariant i <= |adj[u]| && parents == parents0
      invariant Grown(rec0, rec) && KeptFrom(rec0, rec, limit)
      invariant Covered(adj[u][..i], rec, limit)
      invariant Settled(AsEdges(adj), rec, t, src, stack + {u})
    {
      ghost var before := rec;
      found, parents, rec, p := Visit(adj, parents, rec, u, adj[u][i], t, limit, src, stack);
      if found {
        return;
      }
      CoveredStep(adj[u], i, before, rec, limit);
      i := i + 1;
    }
    assert adj[u][..i] == adj[u];
    Leave(AsEdges(adj), rec, t, src, stack, u, limit);
  }

  /** Every node of `s` is recorded with at least `limit`. */
  ghost predicate Covered(s: seq<nat>, rec: map<nat, nat>, limit: nat) {
    forall y :: y in s ==> y in rec && rec[y] >= limit
  }

  /** Covering survives growing records and extends by one recorded node. */
  lemma CoveredStep(s: seq<nat>, i: nat, rec0: map<nat, nat>, rec: map<nat, nat>, limit: nat)
    requires i < |s| && Covered(s[..i], rec0, limit) && Grown(rec0, rec)
    requires s[i] in rec && rec[s[i]] >= limit
    ensures Covered(s[..i + 1], rec, limit)
  {
    assert s[..i + 1] == s[..i] + [s[i]];
  }

  /** One pass of the loop over the neighbours of `u`: when the neighbour `v`
      has no record or a smaller one than `limit`, record it with `limit` and
      search it with one less, setting its parent to `u` on success. */
  method Visit(adj: Graph, parents0: seq<int>, rec0: map<nat, nat>, u: nat, v: nat, t: nat, limit: nat,
               ghost src: nat, ghost stack: set<nat>)
    returns (found: bool, parents: seq<int>, rec: map<nat, nat>, ghost p: seq<nat>)
    requires ValidGraph(adj) && u < |adj| && v in adj[u] && |parents0| == |adj| && u != t && limit > 0
    requires u in rec0 && rec0[u] >= limit
    requires u !in stack && (u == src || src in stack)
    requires forall a :: a in stack ==> a in rec0 && rec0[a] > limit
    requires Settled(AsEdges(adj), rec0, t, src, stack + {u})
    decreases limit, 0
    ensures |parents| == |adj|
    ensures Grown(rec0, rec) && KeptFrom(rec0, rec, limit)
    ensures v in rec && rec[v] >= limit
    ensures found ==> Traced(adj, parents0, parents, u, t, limit, stack, p)
    ensures !found ==> parents == parents0 && Settled(AsEdges(adj), rec, t, src, stack + {u})
  {
    found, parents, rec, p := false, parents0, rec0, [];
    if v !in rec || limit > rec[v] {
      Enter(AsEdges(adj), rec, t, src, stack + {u}, v, limit);
      assert stack + {u} + {v} == (stack + {u}) + {v};
      rec := rec[v := limit];
      ghost var q;
      found, parents, rec, q := Dls(adj, parents, rec, v, t, limit - 1, src, stack + {u});
      if found {
        TracedCons(adj, parents0, parents, u, v, t, limit, stack, q);
        parents, p := parents[v := u], [u] + q;
      }
      Record(rec0, v, limit, rec);
    }
  }

  /** The reconstruction loop: starting from the target, prepend the parent of
      the current node until a node without one is reached. */
  method Rebuild(parents: seq<int>, s: nat, t: nat, ghost p: seq<nat>) returns (head: seq<nat>)
    requires IsChain(parents, p, s, t) && parents[s] == -1
    ensures head == p
  {
    head := [t];
    var next := parents[t];
    ghost var m: nat := |p| - 1;
    while next != -1
      invariant m < |p| && head == p[m..] && next == parents[p[m]]
      invariant next == if m == 0 then -1 else p[m - 1]
      decreases m
    {
      m := m - 1;
      head := [next as nat] + head;
      next := parents[next];
    }
  }

  /** Rounds with limits `0` to `maxDepth`: the first successful round's
      route, or nothing when every round fails. */
  method FindShortestPath(adj: Graph, src: nat, target: nat, maxDepth: nat) returns (head: Option<seq<nat>>)
    requires ValidGraph(adj) && src < |adj|
    ensures head.Some? ==> PathFromTo(adj, head.value, src, target) && NoDup(head.value)
    ensures head.Some? ==> |head.value| <= maxDepth + 1
    ensures head.Some? ==> forall q :: PathFromTo(adj, q, src, target) ==> |head.value| <= |q|
    ensures head.None? <==> forall q :: PathFromTo(adj, q, src, target) ==> |q| > maxDepth + 1
    ensures src == target ==> head == Some([src])
  {
    var n := |adj|;
    var parents := Fill(n, -1);
    for limit := 0 to maxDepth + 1
      invariant forall q :: PathFromTo(adj, q, src, target) ==> |q| > limit
    {
      var rec := map[src := limit];
      var ok, parents', rec';
      ghost var p;
      ok, parents', rec', p := Dls(adj, parents, rec, src, target, limit, src, {});
      if ok {
        forall j | 0 < j < |p| ensures p[j] != src {
          assert p[j] != p[0];
        }
        assert src !in p[1..];
        var path := Rebuild(parents', src, target, p);
        head := Some(path);
        return;
      }
      forall q | PathFromTo(adj, q, src, target) ensures |q| > limit + 1 {
        PathTrail(adj, q);
        Exhausted(AsEdges(adj), rec', target, src, limit, q);
      }
    }
    head := None;
  }
}
