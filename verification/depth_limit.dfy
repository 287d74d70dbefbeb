/** What a failed depth-limited search with a budget table lets one conclude.
    Both iterative-deepening searches keep a table `rec` (their
    `visitedAtLimit`) from each node they have entered to the limit recorded
    for it: the full limit for the source, and for every other node the limit
    of the call that entered it, which searches the node with one less. A
    node is entered again only with a strictly larger record. When the search
    from the source fails, every node in the table has been searched to its
    remaining limit and none of them is the target; following any route from
    the source through the table then shows the route is longer than the
    limit. The graph is a map from a node to its neighbours; a node without
    an entry has none. */
module DepthLimit {

  type Edges<T> = map<T, seq<T>>

  /** `p` is a non-empty sequence of nodes, each listed as a neighbour of the
      one before it. */
  ghost predicate Trail<T>(adj: Edges<T>, p: seq<T>) {
    && |p| >= 1
    && forall i :: 0 <= i < |p| - 1 ==> p[i] in adj && p[i + 1] in adj[p[i]]
  }

  ghost predicate TrailFromTo<T>(adj: Edges<T>, p: seq<T>, s: T, t: T) {
    Trail(adj, p) && p[0] == s && p[|p| - 1] == t
  }

  /** The remaining limit with which `x` was searched. */
  ghost function Budget<T>(rec: map<T, nat>, src: T, x: T): int
    requires x in rec
  {
    if x == src then rec[x] else rec[x] as int - 1
  }

  /** `x` was searched with remaining limit `b` and the search failed: `x` is
      not the target, and when `b` allowed a step every neighbour of `x` is
      recorded with at least `b`. */
  ghost predicate Done<T>(adj: Edges<T>, rec: map<T, nat>, t: T, x: T, b: int) {
    && x != t
    && (b > 0 && x in adj ==> forall y :: y in adj[x] ==> y in rec && rec[y] >= b)
  }

  /** Every recorded node that is not on the call stack has been searched to
      its remaining limit, and failed. */
  ghost predicate Settled<T>(adj: Edges<T>, rec: map<T, nat>, t: T, src: T, stack: set<T>) {
    forall x :: x in rec && x !in stack ==> Done(adj, rec, t, x, Budget(rec, src, x))
  }

  /** Records are never removed and never lowered. */
  ghost predicate Grown<T>(rec0: map<T, nat>, rec: map<T, nat>) {
    forall x :: x in rec0 ==> x in rec && rec[x] >= rec0[x]
  }

  /** Records of at least `limit` are left as they were. */
  ghost predicate KeptFrom<T>(rec0: map<T, nat>, rec: map<T, nat>, limit: int) {
    forall x :: x in rec0 && rec0[x] >= limit ==> x in rec && rec[x] == rec0[x]
  }

  /** Recording `v` with `l` above its old record and then searching it with
      one less keeps the records grown, leaves those of at least `l` alone,
      and leaves `v` at `l`. */
  lemma Record<T>(rec0: map<T, nat>, v: T, l: nat, rec: map<T, nat>)
    requires (v in rec0 ==> rec0[v] < l) && Grown(rec0[v := l], rec) && KeptFrom(rec0[v := l], rec, l - 1)
    ensures Grown(rec0, rec) && KeptFrom(rec0, rec, l) && v in rec && rec[v] == l
  {
    forall x | x in rec0 ensures x in rec && rec[x] >= rec0[x] {
      assert x in rec0[v := l];
    }
  }

  /** Entering `v` with a record `l` above its old one puts it on the stack;
      the nodes already settled stay settled. */
  lemma Enter<T>(adj: Edges<T>, rec: map<T, nat>, t: T, src: T, stack: set<T>, v: T, l: nat)
    requires Settled(adj, rec, t, src, stack) && (v in rec ==> rec[v] < l)
    ensures Settled(adj, rec[v := l], t, src, stack + {v})
  {
    var rec' := rec[v := l];
    forall x | x in rec' && x !in stack + {v}
      ensures Done(adj, rec', t, x, Budget(rec', src, x))
    {
      assert Done(adj, rec, t, x, Budget(rec, src, x));
    }
  }

  /** A node whose search failed after every neighbour was recorded with at
      least its remaining limit leaves the stack settled. */
  lemma Leave<T>(adj: Edges<T>, rec: map<T, nat>, t: T, src: T, stack: set<T>, u: T, l: int)
    requires Settled(adj, rec, t, src, stack + {u})
    requires u in rec && Budget(rec, src, u) == l && u != t
    requires l > 0 && u in adj ==> forall y :: y in adj[u] ==> y in rec && rec[y] >= l
    ensures Settled(adj, rec, t, src, stack)
  {
  }

  /** Along a route from the source of at most `L + 1` nodes, the `i`-th node
      is recorded with a remaining limit of at least `L - i`. */
  lemma {:induction false} BudgetAlong<T>(adj: Edges<T>, rec: map<T, nat>, t: T, src: T, L: nat, p: seq<T>, i: nat)
    requires Settled(adj, rec, t, src, {}) && src in rec && rec[src] == L
    requires Trail(adj, p) && p[0] == src && i < |p| && |p| <= L + 1
    ensures p[i] in rec && Budget(rec, src, p[i]) >= L - i
  {
    if i > 0 {
      BudgetAlong(adj, rec, t, src, L, p, i - 1);
      var x := p[i - 1];
      assert Done(adj, rec, t, x, Budget(rec, src, x));
      assert p[i] in adj[x];
    }
  }

  /** After a failed search from the source with limit `L`, every route from
      the source to the target has more than `L` steps. */
  lemma Exhausted<T>(adj: Edges<T>, rec: map<T, nat>, t: T, src: T, L: nat, p: seq<T>)
    requires Settled(adj, rec, t, src, {}) && src in rec && rec[src] == L
    requires TrailFromTo(adj, p, src, t)
    ensures |p| > L + 1
  {
    if |p| <= L + 1 {
      BudgetAlong(adj, rec, t, src, L, p, |p| - 1);
      assert false;
    }
  }
}
