/** Iterative deepening search over a graph keyed by arbitrary node values:
    the adjacency is a map from a node to its neighbours, the parent links a
    map from a node to its parent, and a node without an adjacency entry
    has no neighbours. The rounds, the budget table and the order of writes
    are those of the index version. */
module IdsTemplate {
  import opened Common
  import opened DepthLimit

  /** What a successful search from `u` leaves behind: a repetition-free
      trail `p` of at most `limit` steps from `u` to `t` that avoids the call
      stack, with every later node mapped to the node before it and every
      other entry of the parent map left as it was. */
  ghost predicate Traced<T(!new)>(adj: Edges<T>, parents0: map<T, T>, parents: map<T, T>, u: T, t: T,
                            limit: nat, stack: set<T>, p: seq<T>)
  {
    && TrailFromTo(adj, p, u, t) && |p| <= limit + 1 && NoDup(p)
    && (forall j :: 0 <= j < |p| ==> p[j] !in stack)
    && (forall j :: 0 < j < |p| ==> p[j] in parents && parents[p[j]] == p[j - 1])
    && (forall x :: x !in p[1..] ==> (x in parents <==> x in parents0))
    && (forall x :: x in parents0 && x !in p[1..] ==> parents[x] == parents0[x])
  }

  /** A successful search from the neighbour `v` of `u` extends to one from `u`
      once `v` is mapped to `u`. */
  lemma TracedCons<T(!new)>(adj: Edges<T>, parents0: map<T, T>, parents: map<T, T>, u: T, v: T, t: T,
                      limit: nat, stack: set<T>, q: seq<T>)
    requires u in adj && v in adj[u] && limit > 0 && u !in stack
    requires Traced(adj, parents0, parents, v, t, limit - 1, stack + {u}, q)
    ensures Traced(adj, parents0, parents[v := u], u, t, limit, stack, [u] + q)
  {
    var p := [u] + q;
    assert p[1..] == q;
    forall j | 0 < j < |p| ensures p[j] in parents[v := u] && parents[v := u][p[j]] == p[j - 1] {
      if j > 1 {
        assert q[j - 1] != q[0];
      }
    }
  }

  /** The depth-limited search from `curr` with remaining limit `limit`,
      failing at once for a node without an adjacency entry. The ghost `src`
      is the round's source and `stack` the nodes of the calls still open
      above this one. */
  method Dls<T(==,!new)>(adj: Edges<T>, parents0: map<T, T>, rec0: map<T, nat>, curr: T, t: T, limit: nat,
                    ghost src: T, ghost stack: set<T>)
    returns (found: bool, parents: map<T, T>, rec: map<T, nat>, ghost p: seq<T>)
    requires curr in rec0 && rec0[curr] == (if curr == src then limit else limit + 1)
    requires curr !in stack && (curr == src || src in stack)
    requires forall a :: a in stack ==> a in rec0 && rec0[a] > limit
    requires Settled(adj, rec0, t, src, stack + {curr})
    decreases limit, 1
    ensures Grown(rec0, rec) && KeptFrom(rec0, rec, limit)
    ensures curr == t ==> found && p == [curr] && parents == parents0
    ensures curr != t && (limit == 0 || curr !in adj) ==> !found
    ensures found ==> Traced(adj, parents0, parents, curr, t, limit, stack, p)
    ensures !found ==> parents == parents0 && Settled(adj, rec, t, src, stack)
  {
    found, parents, rec, p := false, parents0, rec0, [];
    if curr == t {
      found, p := true, [curr];
      return;
    }
    if limit == 0 {
      Leave(adj, rec, t, src, stack, curr, 0);
      return;
    }
    if curr !in adj {
      Leave(adj, rec, t, src, stack, curr, limit);
      return;
    }
    var i := 0;
    while i < |adj[curr]|
      invariant i <= |adj[curr]| && parents == parents0
      invariant Grown(rec0, rec) && KeptFrom(rec0, rec, limit)
      invariant Covered(adj[curr][..i], rec, limit)
      invariant Settled(adj, rec, t, src, stack + {curr})
    {
      ghost var before := rec;
      found, parents, rec, p := Visit(adj, parents, rec, curr, adj[curr][i], t, limit, src, stack);
      if found {
        return;
      }
      CoveredStep(adj[curr], i, before, rec, limit);
      i := i + 1;
    }
    assert adj[curr][..i] == adj[curr];
    Leave(adj, rec, t, src, stack, curr, limit);
  }

  /** Every node of `s` is recorded with at least `limit`. */
  ghost predicate Covered<T>(s: seq<T>, rec: map<T, nat>, limit: nat) {
    forall y :: y in s ==> y in rec && rec[y] >= limit
  }

  /** Covering survives growing records and extends by one recorded node. */
  lemma CoveredStep<T>(s: seq<T>, i: nat, rec0: map<T, nat>, rec: map<T, nat>, limit: nat)
    requires i < |s| && Covered(s[..i], rec0, limit) && Grown(rec0, rec)
    requires s[i] in rec && rec[s[i]] >= limit
    ensures Covered(s[..i + 1], rec, limit)
  {
    assert s[..i + 1] == s[..i] + [s[i]];
  }

  /** One pass of the loop over the neighbours of `curr`: when `neigh` has no
      record or a smaller one than `limit`, record it with `limit` and search
      it with one less, mapping it to `curr` on success. */
  method Visit<T(==,!new)>(adj: Edges<T>, parents0: map<T, T>, rec0: map<T, nat>, curr: T, neigh: T, t: T,
                      limit: nat, ghost src: T, ghost stack: set<T>)
    returns (found: bool, parents: map<T, T>, rec: map<T, nat>, ghost p: seq<T>)
    requires curr in adj && neigh in adj[curr] && curr != t && limit > 0
    requires curr in rec0 && rec0[curr] >= limit
    requires curr !in stack && (curr == src || src in stack)
    requires forall a :: a in stack ==> a in rec0 && rec0[a] > limit
    requires Settled(adj, rec0, t, src, stack + {curr})
    decreases limit, 0
    ensures Grown(rec0, rec) && KeptFrom(rec0, rec, limit)
    ensures neigh in rec && rec[neigh] >= limit
    ensures found ==> Traced(adj, parents0, parents, curr, t, limit, stack, p)
    ensures !found ==> parents == parents0 && Settled(adj, rec, t, src, stack + {curr})
  {
    found, parents, rec, p := false, parents0, rec0, [];
    if neigh !in rec || limit > rec[neigh] {
      Enter(adj, rec, t, src, stack + {curr}, neigh, limit);
      assert stack + {curr} + {neigh} == (stack + {curr}) + {neigh};
      rec := rec[neigh := limit];
      ghost var q;
      found, parents, rec, q := Dls(adj, parents, rec, neigh, t, limit - 1, src, stack + {curr});
      if found {
        TracedCons(adj, parents0, parents, curr, neigh, t, limit, stack, q);
        parents, p := parents[neigh := curr], [curr] + q;
      }
      Record(rec0, neigh, limit, rec);
    }
  }

  /** The reconstruction loop: starting from the target, prepend the parent
      of the current node while it has one, stopping once the source is
      prepended. */
  method Rebuild<T(==,!new)>(parents: map<T, T>, s: T, t: T, ghost p: seq<T>) returns (head: seq<T>)
    requires |p| >= 1 && p[0] == s && p[|p| - 1] == t && s !in parents
    requires forall j :: 0 < j < |p| ==> p[j] != s
    requires forall j :: 0 < j < |p| ==> p[j] in parents && parents[p[j]] == p[j - 1]
    ensures head == p
  {
    head := [t];
    var currId := t;
    ghost var m: nat := |p| - 1;
    while currId in parents
      invariant m < |p| && head == p[m..] && currId == p[m]
      invariant m > 0 ==> currId in parents && currId != s
      decreases m
    {
      var parentId := parents[currId];
      head := [parentId] + head;
      currId := parentId;
      m := m - 1;
      assert head == p[m..];
      assert m > 0 ==> currId in parents && currId != s;
      if currId == s {
        break;
      }
    }
    assert m == 0;
    assert p[m..] == p;
  }

  /** Rounds with limits `0` to `maxDepth` from `src` towards `target`: the
      first successful round's route, or nothing when every round fails. */
  method FindShortestPath<T(==,!new)>(adj: Edges<T>, src: T, target: T, maxDepth: nat) returns (head: Option<seq<T>>)
    ensures head.Some? ==> TrailFromTo(adj, head.value, src, target) && NoDup(head.value)
    ensures head.Some? ==> |head.value| <= maxDepth + 1
    ensures head.Some? ==> forall q :: TrailFromTo(adj, q, src, target) ==> |head.value| <= |q|
    ensures head.None? <==> forall q :: TrailFromTo(adj, q, src, target) ==> |q| > maxDepth + 1
    ensures src == target ==> head == Some([src])
  {
    var parents: map<T, T> := map[];
    for limit := 0 to maxDepth + 1
      invariant forall q :: TrailFromTo(adj, q, src, target) ==> |q| > limit
    {
      var rec := map[src := limit];
      var ok, parents', rec';
      ghost var p;
      ok, parents', rec', p := Dls(adj, parents, rec, src, target, limit, src, {});
      if ok {
        forall j | 0 < j < |p| ensures p[j] != src {
          assert p[j] != p[0];
        }
        assert src !in p[1..];
        var path := Rebuild(parents', src, target, p);
        head := Some(path);
        return;
      }
      forall q | TrailFromTo(adj, q, src, target) ensures |q| > limit + 1 {
        Exhausted(adj, rec', target, src, limit, q);
      }
    }
    head := None;
  }
}
