/** The route finder's Dijkstra search with lazy deletion: the queue holds
    (cost, city, path) tuples, a popped tuple whose city is the avoided one
    or already visited is dropped, and otherwise its city is visited, its
    listed pairs towards unvisited, unavoided cities are pushed, and the
    search stops if the city is the goal. A city name that is empty avoids
    nothing, as an empty string is false in Python. */
module RouteDijkstra {
  import opened Common
  import opened Walks
  import opened RouteGraph
  import opened RouteQueue

  /** `city_to_avoid and c == city_to_avoid`. */
  predicate Blocked(avoid: Option<City>, c: City) {
    avoid.Some? && avoid.value != "" && c == avoid.value
  }

  /** No city of `p` from position `k` on is the avoided one. */
  ghost predicate ClearFrom(avoid: Option<City>, p: seq<City>, k: nat) {
    forall i :: k <= i < |p| ==> !Blocked(avoid, p[i])
  }

  /** No city of `p` is the avoided one. */
  ghost predicate Clear(avoid: Option<City>, p: seq<City>) {
    ClearFrom(avoid, p, 0)
  }

  /** `p` is a walk from `s` to `t` along listed pairs with distances `ws`,
      through no avoided city. */
  ghost predicate ClearWalk(el: EdgeList, avoid: Option<City>, p: seq<City>, ws: seq<nat>, s: City, t: City) {
    IsWalkW(el, p, ws) && p[0] == s && p[|p| - 1] == t && Clear(avoid, p)
  }

  /** Some walk from `s` to `t` avoids the avoided city. */
  ghost predicate Connected(el: EdgeList, avoid: Option<City>, s: City, t: City) {
    exists p, ws :: ClearWalk(el, avoid, p, ws, s, t)
  }

  /** No walk from `s` to `t` that avoids the avoided city costs less than `c`. */
  ghost predicate LowerBound(el: EdgeList, avoid: Option<City>, s: City, t: City, c: nat) {
    forall p, ws :: ClearWalk(el, avoid, p, ws, s, t) ==> c <= Sum(ws)
  }

  /** Every city the search can meet: the start, every city with a list and
      every city listed as a neighbour. */
  ghost function Cities(el: EdgeList, start: City): set<City> {
    Places(el) + {start}
  }

  /** What the loop over the pairs of a visited city pushes: a tuple for each
      pair whose city is neither avoided nor visited, in list order. */
  function Pushed(es: seq<(City, nat)>, visited: set<City>, avoid: Option<City>, c: nat, p: seq<City>): multiset<Entry> {
    if |es| == 0 then multiset{}
    else Pushed(es[..|es| - 1], visited, avoid, c, p) + Push(es[|es| - 1], visited, avoid, c, p)
  }

  /** The tuple one pair pushes, if any. */
  function Push(vw: (City, nat), visited: set<City>, avoid: Option<City>, c: nat, p: seq<City>): multiset<Entry> {
    var e: Entry := (c + vw.1, vw.0, p + [vw.0]);
    if Blocked(avoid, vw.0) || vw.0 in visited then multiset{} else multiset{e}
  }

  /** Every pushed tuple extends `p` by a listed pair towards a city that is
      neither avoided nor visited, at `c` plus that pair's distance. */
  lemma {:induction false} PushedWhich(es: seq<(City, nat)>, visited: set<City>, avoid: Option<City>, c: nat,
                                       p: seq<City>, e: Entry)
    returns (k: nat)
    requires e in Pushed(es, visited, avoid, c, p)
    ensures k < |es| && !Blocked(avoid, es[k].0) && es[k].0 !in visited
    ensures e == (c + es[k].1, es[k].0, p + [es[k].0])
  {
    var es' := es[..|es| - 1];
    if e in Pushed(es', visited, avoid, c, p) {
      k := PushedWhich(es', visited, avoid, c, p, e);
      assert es[k] == es'[k];
    } else {
      k := |es| - 1;
    }
  }

  /** One more pair pushes at most its own tuple. */
  lemma PushedNext(q: multiset<Entry>, es: seq<(City, nat)>, visited: set<City>, avoid: Option<City>, c: nat,
                   p: seq<City>, k: nat)
    requires k < |es|
    ensures q + Pushed(es[..k + 1], visited, avoid, c, p) == q + Pushed(es[..k], visited, avoid, c, p) + Push(es[k], visited, avoid, c, p)
  {
    assert es[..k + 1][..k] == es[..k];
  }

  /** A pair towards a city that is neither avoided nor visited pushes its
      tuple. */
  lemma {:induction false} PushedHas(es: seq<(City, nat)>, visited: set<City>, avoid: Option<City>, c: nat,
                                     p: seq<City>, k: nat)
    requires k < |es| && !Blocked(avoid, es[k].0) && es[k].0 !in visited
    ensures (c + es[k].1, es[k].0, p + [es[k].0]) in Pushed(es, visited, avoid, c, p)
  {
    var es' := es[..|es| - 1];
    var f: Entry := (c + es[k].1, es[k].0, p + [es[k].0]);
    assert Pushed(es, visited, avoid, c, p) == Pushed(es', visited, avoid, c, p) + Push(es[|es| - 1], visited, avoid, c, p);
    if k < |es| - 1 {
      assert es'[k] == es[k];
      PushedHas(es', visited, avoid, c, p, k);
      assert f in Pushed(es', visited, avoid, c, p);
    } else {
      assert f in Push(es[k], visited, avoid, c, p);
    }
  }

  /** The loop over the pairs of the visited city: push one tuple per pair
      that survives the two `continue` tests, counting the pushes. */
  method Expand(es: seq<(City, nat)>, visited: set<City>, avoid: Option<City>, c: nat, p: seq<City>,
                queue0: multiset<Entry>)
    returns (queue: multiset<Entry>, pushes: nat)
    ensures queue == queue0 + Pushed(es, visited, avoid, c, p)
    ensures |queue| == |queue0| + pushes && pushes <= |es|
  {
    queue, pushes := queue0, 0;
    for k := 0 to |es|
      invariant queue == queue0 + Pushed(es[..k], visited, avoid, c, p)
      invariant |queue| == |queue0| + pushes && pushes <= k
    {
      var v := es[k].0;
      PushedNext(queue0, es, visited, avoid, c, p, k);
      if Blocked(avoid, v) {
        continue;
      }
      if v in visited {
        continue;
      }
      // the tuple (c + w, v, p + [v])
      queue := queue + Push(es[k], visited, avoid, c, p);
      pushes := pushes + 1;
    }
    assert es[..|es|] == es;
  }

  /** A queued tuple is a repetition-free walk from the start to its city
      costing its cost, through no avoided city after the start (the first
      tuple is queued whether or not the start is avoided). */
  ghost predicate Priced(el: EdgeList, avoid: Option<City>, start: City, e: Entry) {
    && |e.2| >= 1 && e.2[0] == start && e.2[|e.2| - 1] == e.1 && NoDup(e.2) && ClearFrom(avoid, e.2, 1)
    && exists ws :: IsWalkW(el, e.2, ws) && Sum(ws) == e.0
  }

  /** Every city of a queued tuple's path but its own is visited. */
  ghost predicate Behind(visited: set<City>, e: Entry) {
    forall i :: 0 <= i < |e.2| - 1 ==> e.2[i] in visited
  }

  /** A visited city is not avoided, is not the goal (the search would have
      stopped) and was reached at the least cost of any clear walk. */
  ghost predicate Optimal(el: EdgeList, avoid: Option<City>, start: City, goal: City,
                          visited: set<City>, dist: map<City, nat>) {
    forall x :: x in visited ==> x in dist && !Blocked(avoid, x) && x != goal && LowerBound(el, avoid, start, x, dist[x])
  }

  /** Every listed pair leaving a visited city towards an unvisited,
      unavoided city has a queued tuple for that city costing at most the
      visited city's cost plus the pair's distance. */
  ghost predicate Fringe(el: EdgeList, avoid: Option<City>, visited: set<City>, dist: map<City, nat>,
                         queue: multiset<Entry>) {
    forall u, v, w :: u in visited && u in el && (v, w) in el[u] && !Blocked(avoid, v) && v !in visited ==>
      u in dist && Queued(queue, v, dist[u] + w)
  }

  /** Some queued tuple for `v` costs at most `b`. */
  ghost predicate Queued(queue: multiset<Entry>, v: City, b: nat) {
    exists f :: f in queue && f.1 == v && f.0 <= b
  }

  /** A tuple witnesses `Queued`. */
  lemma QueuedBy(queue: multiset<Entry>, f: Entry, b: nat)
    requires f in queue && f.0 <= b
    ensures Queued(queue, f.1, b)
  {
  }

  /** Every queued tuple is priced, behind the visited cities, and its city
      one the search can meet. */
  ghost predicate Entries(el: EdgeList, avoid: Option<City>, start: City, visited: set<City>, queue: multiset<Entry>) {
    forall e :: e in queue ==> Priced(el, avoid, start, e) && Behind(visited, e) && e.1 in Cities(el, start)
  }

  /** The loop invariant of `Dijkstra`. */
  ghost predicate Inv(el: EdgeList, avoid: Option<City>, start: City, goal: City,
                      visited: set<City>, dist: map<City, nat>, queue: multiset<Entry>) {
    && Entries(el, avoid, start, visited, queue)
    && visited <= Cities(el, start)
    && Optimal(el, avoid, start, goal, visited, dist)
    && Fringe(el, avoid, visited, dist, queue)
    && (!Blocked(avoid, start) && start !in visited ==> (0, start, [start]) in queue)
  }

  lemma InvInit(el: EdgeList, avoid: Option<City>, start: City, goal: City)
    ensures Inv(el, avoid, start, goal, {}, map[], multiset{(0, start, [start])})
  {
    var e: Entry := (0, start, [start]);
    assert IsWalkW(el, [start], []) && Sum([]) == 0;
    assert Priced(el, avoid, start, e) && Behind({}, e) && start in Cities(el, start);
  }

  /** Dropping a tuple whose city is avoided or visited keeps the invariant. */
  lemma Drop(el: EdgeList, avoid: Option<City>, start: City, goal: City,
             visited: set<City>, dist: map<City, nat>, queue: multiset<Entry>, e: Entry)
    requires Inv(el, avoid, start, goal, visited, dist, queue) && e in queue
    requires Blocked(avoid, e.1) || e.1 in visited
    ensures Inv(el, avoid, start, goal, visited, dist, queue - multiset{e})
  {
    DropFringe(el, avoid, visited, dist, queue, e);
  }

  /** Dropping such a tuple keeps the fringe covered: no pair of the fringe
      leads to its city. */
  lemma DropFringe(el: EdgeList, avoid: Option<City>, visited: set<City>, dist: map<City, nat>,
                   queue: multiset<Entry>, e: Entry)
    requires Fringe(el, avoid, visited, dist, queue)
    requires Blocked(avoid, e.1) || e.1 in visited
    ensures Fringe(el, avoid, visited, dist, queue - multiset{e})
  {
    var q := queue - multiset{e};
    forall u, v, w | u in visited && u in el && (v, w) in el[u] && !Blocked(avoid, v) && v !in visited
      ensures Queued(q, v, dist[u] + w)
    {
      var f := Covering(el, avoid, visited, dist, queue, u, v, w);
      QueuedBy(q, f, dist[u] + w);
    }
  }

  /** A walk's prefix up to its `k`-th city is a walk. */
  lemma ClearPrefix(el: EdgeList, avoid: Option<City>, p: seq<City>, ws: seq<nat>, s: City, t: City, k: nat)
    requires ClearWalk(el, avoid, p, ws, s, t) && 0 < k < |p|
    ensures ClearWalk(el, avoid, p[..k + 1], ws[..k], s, p[k])
    ensures Sum(ws[..k]) <= Sum(ws)
  {
    assert ws == ws[..k] + ws[k..];
    SumConcat(ws[..k], ws[k..]);
  }

  /** A walk from a visited start to an unvisited city leaves the visited
      cities somewhere: at `k`, right after the visited `p[k - 1]`. */
  lemma FirstOutside(p: seq<City>, visited: set<City>) returns (k: nat)
    requires |p| >= 1 && p[0] in visited && p[|p| - 1] !in visited
    ensures 0 < k < |p| && p[k - 1] in visited && p[k] !in visited
  {
    k := 1;
    while p[k] in visited
      invariant 0 < k < |p| && p[k - 1] in visited
      decreases |p| - k
    {
      k := k + 1;
    }
  }

  /** The least queued tuple of an unvisited, unavoided city costs no more
      than any clear walk to that city. */
  lemma PopOptimal(el: EdgeList, avoid: Option<City>, start: City, goal: City,
                   visited: set<City>, dist: map<City, nat>, queue: multiset<Entry>, e: Entry)
    requires Inv(el, avoid, start, goal, visited, dist, queue) && IsLeast(queue, e)
    requires !Blocked(avoid, e.1) && e.1 !in visited
    ensures LowerBound(el, avoid, start, e.1, e.0)
  {
    forall q, qs | ClearWalk(el, avoid, q, qs, start, e.1) ensures e.0 <= Sum(qs) {
      if start !in visited {
        assert !Blocked(avoid, q[0]);
        assert EntryLe(e, (0, start, [start]));
      } else {
        var f := Crossing(el, avoid, start, goal, visited, dist, queue, q, qs, e.1);
        assert EntryLe(e, f);
      }
    }
  }

  /** A clear walk from the visited start to an unvisited city crosses the
      fringe, where a queued tuple costs no more than the walk. */
  lemma Crossing(el: EdgeList, avoid: Option<City>, start: City, goal: City, visited: set<City>,
                 dist: map<City, nat>, queue: multiset<Entry>, q: seq<City>, qs: seq<nat>, x: City)
    returns (f: Entry)
    requires Optimal(el, avoid, start, goal, visited, dist) && Fringe(el, avoid, visited, dist, queue)
    requires ClearWalk(el, avoid, q, qs, start, x) && start in visited && x !in visited
    ensures f in queue && f.0 <= Sum(qs)
  {
    var k := FirstOutside(q, visited);
    var u, v, w := q[k - 1], q[k], qs[k - 1];
    assert !Blocked(avoid, v);
    if k == 1 {
      assert ClearWalk(el, avoid, q[..1], [], start, u);
    } else {
      ClearPrefix(el, avoid, q, qs, start, x, k - 1);
    }
    assert dist[u] <= Sum(qs[..k - 1]);
    ClearPrefix(el, avoid, q, qs, start, x, k);
    assert qs[..k][..k - 1] == qs[..k - 1];
    assert Sum(qs[..k]) == Sum(qs[..k - 1]) + w;
    assert Queued(queue, v, dist[u] + w);
    f :| f in queue && f.1 == v && f.0 <= dist[u] + w;
  }

  /** Popping the goal's least tuple: its path is a clear, repetition-free
      walk to the goal of the least cost, no longer than the visited cities
      with the goal, and its cost is the one `get_path_cost` gives when no
      city lists a neighbour twice. */
  lemma Arrive(el: EdgeList, avoid: Option<City>, start: City, goal: City,
               visited: set<City>, dist: map<City, nat>, queue: multiset<Entry>, e: Entry)
    returns (ws: seq<nat>)
    requires Inv(el, avoid, start, goal, visited, dist, queue) && IsLeast(queue, e)
    requires !Blocked(avoid, e.1) && e.1 !in visited && e.1 == goal
    ensures ClearWalk(el, avoid, e.2, ws, start, goal) && NoDup(e.2) && Sum(ws) == e.0
    ensures LowerBound(el, avoid, start, goal, e.0)
    ensures |e.2| <= |visited| + 1
    ensures NoParallel(el) ==> RouteCost(el, e.2) == Fin(e.0)
  {
    PopOptimal(el, avoid, start, goal, visited, dist, queue, e);
    var p := e.2;
    assert Priced(el, avoid, start, e) && Behind(visited, e);
    ws :| IsWalkW(el, p, ws) && Sum(ws) == e.0;
    forall i | 0 <= i < |p| ensures p[i] in visited + {e.1} && !Blocked(avoid, p[i]) {
      if i < |p| - 1 {
        assert p[i] in visited;
      }
    }
    NoDupCard(p, visited + {e.1});
    if NoParallel(el) {
      WalkCost(el, p, ws);
    }
  }

  /** Extending a priced tuple by a listed pair of its city gives a priced
      tuple. */
  lemma PricedStep(el: EdgeList, avoid: Option<City>, start: City, e: Entry, v: City, w: nat)
    requires Priced(el, avoid, start, e) && v !in e.2
    requires e.1 in el && (v, w) in el[e.1] && !Blocked(avoid, v)
    ensures Priced(el, avoid, start, (e.0 + w, v, e.2 + [v]))
  {
    var p := e.2;
    var ws :| IsWalkW(el, p, ws) && Sum(ws) == e.0;
    WalkSnoc(el, p, ws, v, w);
    NoDupSnoc(p, v);
    ClearSnoc(avoid, p, v);
    assert IsWalkW(el, p + [v], ws + [w]);
  }

  /** The path of a tuple whose city is visited holds no unvisited city, and
      extending it by one leaves every city but the new one visited. */
  lemma BehindStep(visited: set<City>, e: Entry, v: City, c: nat)
    requires Behind(visited, e) && |e.2| >= 1 && e.2[|e.2| - 1] in visited && v !in visited
    ensures v !in e.2 && Behind(visited, (c, v, e.2 + [v]))
  {
    var p := e.2;
    forall i | 0 <= i < |p| ensures p[i] != v {
      if i < |p| - 1 {
        assert p[i] in visited;
      }
    }
  }

  lemma NoDupSnoc(p: seq<City>, v: City)
    requires NoDup(p) && v !in p
    ensures NoDup(p + [v])
  {
  }

  lemma ClearSnoc(avoid: Option<City>, p: seq<City>, v: City)
    requires ClearFrom(avoid, p, 1) && !Blocked(avoid, v)
    ensures ClearFrom(avoid, p + [v], 1)
  {
  }

  /** What `Dijkstra` queues after visiting the city of `e`. */
  function Next(el: EdgeList, avoid: Option<City>, visited': set<City>, queue: multiset<Entry>, e: Entry): multiset<Entry> {
    queue - multiset{e} + if e.1 in el then Pushed(el[e.1], visited', avoid, e.0, e.2) else multiset{}
  }

  /** The tuples queued after a visit: the old ones but the popped one, and
      the pushed ones. */
  lemma NextMembers(el: EdgeList, avoid: Option<City>, visited': set<City>, queue: multiset<Entry>, e: Entry, f: Entry)
    ensures f in Next(el, avoid, visited', queue, e) <==>
      (f in queue - multiset{e}) || (e.1 in el && f in Pushed(el[e.1], visited', avoid, e.0, e.2))
  {
  }

  /** A tuple pushed from a priced tuple whose city is now visited is priced,
      behind the visited cities, and for a city the search can meet. */
  lemma PushedEntry(el: EdgeList, avoid: Option<City>, start: City, visited': set<City>, e: Entry, f: Entry)
    requires Priced(el, avoid, start, e) && Behind(visited', e) && e.1 in visited' && e.1 in el
    requires f in Pushed(el[e.1], visited', avoid, e.0, e.2)
    ensures Priced(el, avoid, start, f) && Behind(visited', f) && f.1 in Cities(el, start)
  {
    var es := el[e.1];
    var k := PushedWhich(es, visited', avoid, e.0, e.2, f);
    var v, w := es[k].0, es[k].1;
    assert (v, w) in el[e.1];
    BehindStep(visited', e, v, e.0 + w);
    PricedStep(el, avoid, start, e, v, w);
    ListedPlace(el, e.1, k);
  }

  /** Visiting the city of a queued tuple keeps every queued tuple priced and
      behind the visited cities. */
  lemma VisitEntries(el: EdgeList, avoid: Option<City>, start: City, visited: set<City>, queue: multiset<Entry>, e: Entry)
    requires Entries(el, avoid, start, visited, queue) && e in queue && e.1 !in visited && !Blocked(avoid, e.1)
    ensures Entries(el, avoid, start, visited + {e.1}, Next(el, avoid, visited + {e.1}, queue, e))
  {
    var visited' := visited + {e.1};
    var q := Next(el, avoid, visited', queue, e);
    assert Priced(el, avoid, start, e) && Behind(visited', e);
    forall f | f in q ensures Priced(el, avoid, start, f) && Behind(visited', f) && f.1 in Cities(el, start) {
      NextMembers(el, avoid, visited', queue, e, f);
      if e.1 in el && f in Pushed(el[e.1], visited', avoid, e.0, e.2) {
        PushedEntry(el, avoid, start, visited', e, f);
      } else {
        assert f in queue && Behind(visited, f);
      }
    }
  }

  /** Visiting the city of a tuple and pushing its pairs keeps the fringe
      covered: the new pairs by the pushed tuples, the old by the tuples
      still queued. */
  lemma VisitFringe(el: EdgeList, avoid: Option<City>, visited: set<City>, dist: map<City, nat>,
                    queue: multiset<Entry>, e: Entry)
    requires Fringe(el, avoid, visited, dist, queue) && e in queue && e.1 !in visited
    ensures var visited' := visited + {e.1};
      Fringe(el, avoid, visited', dist[e.1 := e.0], Next(el, avoid, visited', queue, e))
  {
    var x, visited', dist' := e.1, visited + {e.1}, dist[e.1 := e.0];
    var q := Next(el, avoid, visited', queue, e);
    forall u, v, w | u in visited' && u in el && (v, w) in el[u] && !Blocked(avoid, v) && v !in visited'
      ensures u in dist' && Queued(q, v, dist'[u] + w)
    {
      if u == x {
        FringeNew(el, avoid, visited', queue, e, v, w);
      } else {
        var g := Covering(el, avoid, visited, dist, queue, u, v, w);
        FringeOld(el, avoid, visited', queue, e, g, dist'[u] + w);
      }
    }
  }

  /** The tuple that covers a pair of the fringe. */
  lemma Covering(el: EdgeList, avoid: Option<City>, visited: set<City>, dist: map<City, nat>,
                 queue: multiset<Entry>, u: City, v: City, w: nat) returns (g: Entry)
    requires Fringe(el, avoid, visited, dist, queue)
    requires u in visited && u in el && (v, w) in el[u] && !Blocked(avoid, v) && v !in visited
    ensures u in dist && g in queue && g.1 == v && g.0 <= dist[u] + w
  {
    g :| g in queue && g.1 == v && g.0 <= dist[u] + w;
  }

  /** A pair of the visited city is covered by the tuple pushed for it. */
  lemma FringeNew(el: EdgeList, avoid: Option<City>, visited': set<City>, queue: multiset<Entry>, e: Entry,
                  v: City, w: nat)
    requires e.1 in el && (v, w) in el[e.1] && !Blocked(avoid, v) && v !in visited'
    ensures Queued(Next(el, avoid, visited', queue, e), v, e.0 + w)
  {
    var es := el[e.1];
    var k :| 0 <= k < |es| && es[k] == (v, w);
    var g: Entry := (e.0 + w, v, e.2 + [v]);
    PushedHas(es, visited', avoid, e.0, e.2, k);
    assert g in Pushed(es, visited', avoid, e.0, e.2);
    NextMembers(el, avoid, visited', queue, e, g);
    QueuedBy(Next(el, avoid, visited', queue, e), g, e.0 + w);
  }

  /** A tuple other than the popped one stays queued. */
  lemma FringeOld(el: EdgeList, avoid: Option<City>, visited': set<City>, queue: multiset<Entry>, e: Entry,
                  g: Entry, b: nat)
    requires g in queue && g != e && g.0 <= b
    ensures Queued(Next(el, avoid, visited', queue, e), g.1, b)
  {
    NextMembers(el, avoid, visited', queue, e, g);
    QueuedBy(Next(el, avoid, visited', queue, e), g, b);
  }

  /** A city reached at its least cost, neither avoided nor the goal, joins
      the visited cities. */
  lemma OptimalStep(el: EdgeList, avoid: Option<City>, start: City, goal: City,
                    visited: set<City>, dist: map<City, nat>, x: City, c: nat)
    requires Optimal(el, avoid, start, goal, visited, dist)
    requires LowerBound(el, avoid, start, x, c) && !Blocked(avoid, x) && x != goal
    ensures Optimal(el, avoid, start, goal, visited + {x}, dist[x := c])
  {
  }

  /** Visiting the least tuple's city, which is not the goal, and pushing its
      pairs keeps the invariant. */
  lemma Visit(el: EdgeList, avoid: Option<City>, start: City, goal: City,
              visited: set<City>, dist: map<City, nat>, queue: multiset<Entry>, e: Entry)
    requires Inv(el, avoid, start, goal, visited, dist, queue) && IsLeast(queue, e)
    requires !Blocked(avoid, e.1) && e.1 !in visited && e.1 != goal
    ensures var visited' := visited + {e.1};
      Inv(el, avoid, start, goal, visited', dist[e.1 := e.0], Next(el, avoid, visited', queue, e))
  {
    PopOptimal(el, avoid, start, goal, visited, dist, queue, e);
    OptimalStep(el, avoid, start, goal, visited, dist, e.1, e.0);
    VisitEntries(el, avoid, start, visited, queue, e);
    VisitFringe(el, avoid, visited, dist, queue, e);
    assert Priced(el, avoid, start, e) && Behind(visited, e);
    if |e.2| > 1 {
      assert e.2[0] in visited;
    }
  }

  /** With the queue empty, no clear walk reaches the goal. */
  lemma Exhausted(el: EdgeList, avoid: Option<City>, start: City, goal: City,
                  visited: set<City>, dist: map<City, nat>)
    requires Inv(el, avoid, start, goal, visited, dist, multiset{})
    ensures !Connected(el, avoid, start, goal)
  {
    if Connected(el, avoid, start, goal) {
      var q, qs :| ClearWalk(el, avoid, q, qs, start, goal);
      assert !Blocked(avoid, q[0]);
      var k := FirstOutside(q, visited);
      assert false;
    }
  }

  /** A repetition-free sequence drawn from `s` is no longer than `s` is large. */
  lemma {:induction false} NoDupCard(p: seq<City>, s: set<City>)
    requires NoDup(p) && forall i :: 0 <= i < |p| ==> p[i] in s
    ensures |p| <= |s|
  {
    if |p| > 0 {
      var x := p[|p| - 1];
      NoDupCard(p[..|p| - 1], s - {x});
    }
  }

  /** Visiting one more city of the universe shrinks the unvisited part. */
  lemma Shrinks(u: set<City>, visited: set<City>, x: City)
    requires x in u && x !in visited
    ensures |u - (visited + {x})| < |u - visited|
  {
    assert u - visited == (u - (visited + {x})) + {x};
  }

  /** What one pop makes of the queue: the least tuple `e` leaves it, and
      unless its city is avoided or visited, the tuples for that city's pairs
      join it. */
  function After(el: EdgeList, avoid: Option<City>, visited: set<City>, queue: multiset<Entry>, e: Entry): multiset<Entry> {
    if Blocked(avoid, e.1) || e.1 in visited then queue - multiset{e}
    else Next(el, avoid, visited + {e.1}, queue, e)
  }

  /** The pop of `e` ends the search: its city is the goal, neither avoided
      nor visited. */
  predicate Arrives(avoid: Option<City>, visited: set<City>, goal: City, e: Entry) {
    !Blocked(avoid, e.1) && e.1 !in visited && e.1 == goal
  }

  /** The cities visited once `e` is popped: its city joins them unless it
      is avoided (a city already visited stays so). */
  function Visited(avoid: Option<City>, visited: set<City>, e: Entry): set<City> {
    if Blocked(avoid, e.1) then visited else visited + {e.1}
  }

  /** One pop: `e` is a least tuple of `queue`, and the queue and the
      visited cities become `queue'` and `visited'`. */
  ghost predicate Step(el: EdgeList, avoid: Option<City>, queue: multiset<Entry>, visited: set<City>, e: Entry,
                       queue': multiset<Entry>, visited': set<City>)
  {
    && IsLeast(queue, e)
    && queue' == After(el, avoid, visited, queue, e)
    && visited' == Visited(avoid, visited, e)
  }

  /** `popped` lists the tuples popped in turn; `queues` and `visiteds` hold
      the queue and the visited cities before each pop and after the last,
      starting with no city visited. */
  ghost predicate Pops(el: EdgeList, avoid: Option<City>, popped: seq<Entry>,
                       queues: seq<multiset<Entry>>, visiteds: seq<set<City>>)
  {
    && |queues| == |popped| + 1 && |visiteds| == |popped| + 1 && visiteds[0] == {}
    && forall k | 0 <= k < |popped| ::
         Step(el, avoid, queues[k], visiteds[k], popped[k], queues[k + 1], visiteds[k + 1])
  }

  /** None of the first `n` pops ends the search. */
  ghost predicate NoArrival(avoid: Option<City>, goal: City, popped: seq<Entry>, visiteds: seq<set<City>>, n: nat)
  {
    forall k | 0 <= k < n && k < |popped| && k < |visiteds| :: !Arrives(avoid, visiteds[k], goal, popped[k])
  }

  /** The last tuple popped. */
  function Last(popped: seq<Entry>): Entry
    requires |popped| > 0
  {
    popped[|popped| - 1]
  }

  /** The last pop of `popped` ends the search, and none before it does. */
  ghost predicate Ended(avoid: Option<City>, goal: City, popped: seq<Entry>, visiteds: seq<set<City>>)
  {
    && 0 < |popped| < |visiteds|
    && NoArrival(avoid, goal, popped, visiteds, |popped| - 1)
    && Arrives(avoid, visiteds[|popped| - 1], goal, Last(popped))
  }

  /** The trace of a search still under way: the pops of `popped` started
      from the start's tuple alone, left `queue` and `visited`, and none of
      them reached the goal. */
  ghost predicate Traced(el: EdgeList, avoid: Option<City>, start: City, goal: City,
                         visited: set<City>, queue: multiset<Entry>,
                         popped: seq<Entry>, queues: seq<multiset<Entry>>, visiteds: seq<set<City>>)
  {
    && Pops(el, avoid, popped, queues, visiteds) && queues[0] == multiset{(0, start, [start])}
    && queues[|popped|] == queue && visiteds[|popped|] == visited && NoArrival(avoid, goal, popped, visiteds, |popped|)
  }

  /** The least tuple, dropped or visited as `Pop` does it, makes one step;
      it ends the search exactly when it arrives. */
  lemma StepOf(el: EdgeList, avoid: Option<City>, goal: City, queue: multiset<Entry>, visited: set<City>,
               e: Entry, q: multiset<Entry>, visited': set<City>, arrived: Option<Entry>)
    requires IsLeast(queue, e)
    requires Blocked(avoid, e.1) || e.1 in visited ==>
               visited' == visited && q == queue - multiset{e} && arrived.None?
    requires !Blocked(avoid, e.1) && e.1 !in visited ==>
               && visited' == visited + {e.1} && q == Next(el, avoid, visited', queue, e)
               && arrived == if e.1 == goal then Some(e) else None
    ensures Step(el, avoid, queue, visited, e, q, visited')
    ensures arrived.Some? <==> Arrives(avoid, visited, goal, e)
    ensures arrived.Some? ==> arrived.value == e
  {
    if Blocked(avoid, e.1) || e.1 in visited {
      if !Blocked(avoid, e.1) {
        assert visited + {e.1} == visited;
      }
      assert q == After(el, avoid, visited, queue, e);
    } else {
      assert q == After(el, avoid, visited, queue, e);
    }
  }

  /** One more step extends the trace; a pop that arrives after none did
      ends the search, and one that does not keeps it going. */
  lemma PopsSnoc(el: EdgeList, avoid: Option<City>, goal: City, popped: seq<Entry>,
                 queues: seq<multiset<Entry>>, visiteds: seq<set<City>>, e: Entry, q: multiset<Entry>, v: set<City>)
    requires Pops(el, avoid, popped, queues, visiteds)
    requires Step(el, avoid, queues[|popped|], visiteds[|popped|], e, q, v)
    ensures Pops(el, avoid, popped + [e], queues + [q], visiteds + [v])
    ensures (popped + [e])[..|popped|] == popped && (queues + [q])[0] == queues[0] && Last(popped + [e]) == e
    ensures NoArrival(avoid, goal, popped, visiteds, |popped|) ==>
              if Arrives(avoid, visiteds[|popped|], goal, e) then Ended(avoid, goal, popped + [e], visiteds + [v])
              else NoArrival(avoid, goal, popped + [e], visiteds + [v], |popped| + 1)
  {
    var n, popped', queues', visiteds' := |popped|, popped + [e], queues + [q], visiteds + [v];
    assert popped'[..n] == popped;
    forall k | 0 <= k < n + 1
      ensures Step(el, avoid, queues'[k], visiteds'[k], popped'[k], queues'[k + 1], visiteds'[k + 1])
    {
      if k < n {
        assert popped'[k] == popped[k] && queues'[k] == queues[k] && visiteds'[k] == visiteds[k];
        assert queues'[k + 1] == queues[k + 1] && visiteds'[k + 1] == visiteds[k + 1];
      }
    }
  }

  /** The trace of a search under way, extended by one step whose arrival
      `arrived` reports. */
  lemma TraceSnoc(el: EdgeList, avoid: Option<City>, start: City, goal: City, visited: set<City>, queue: multiset<Entry>,
                  popped: seq<Entry>, queues: seq<multiset<Entry>>, visiteds: seq<set<City>>,
                  e: Entry, q: multiset<Entry>, v: set<City>, arrived: Option<Entry>)
    requires Traced(el, avoid, start, goal, visited, queue, popped, queues, visiteds)
    requires Step(el, avoid, queue, visited, e, q, v)
    requires arrived.Some? <==> Arrives(avoid, visited, goal, e)
    requires arrived.Some? ==> arrived.value == e
    ensures var popped', queues', visiteds' := popped + [e], queues + [q], visiteds + [v];
      && Pops(el, avoid, popped', queues', visiteds') && queues'[|popped'|] == q && visiteds'[|popped'|] == v
      && |popped'| == |popped| + 1 && popped'[..|popped|] == popped && queues'[0] == queues[0]
      && (arrived.Some? ==> Ended(avoid, goal, popped', visiteds') && arrived.value == Last(popped'))
      && (arrived.None? ==> Traced(el, avoid, start, goal, v, q, popped', queues', visiteds'))
  {
    PopsSnoc(el, avoid, goal, popped, queues, visiteds, e, q, v);
  }

  /** One pass of the loop of `dijkstra`: pop the least tuple, drop it if
      its city is avoided or visited, otherwise visit the city and push its
      pairs (`Enter`), and report the tuple if the city is the goal. */
  method Pop(el: EdgeList, start: City, goal: City, avoid: Option<City>,
             visited: set<City>, ghost dist: map<City, nat>, queue: multiset<Entry>,
             ghost popped: seq<Entry>, ghost queues: seq<multiset<Entry>>, ghost visiteds: seq<set<City>>)
    returns (visited': set<City>, ghost dist': map<City, nat>, queue': multiset<Entry>, arrived: Option<Entry>,
             pushes: nat, ghost ws: seq<nat>,
             ghost popped': seq<Entry>, ghost queues': seq<multiset<Entry>>, ghost visiteds': seq<set<City>>)
    requires Inv(el, avoid, start, goal, visited, dist, queue) && |queue| > 0
    requires Traced(el, avoid, start, goal, visited, queue, popped, queues, visiteds)
    ensures Pops(el, avoid, popped', queues', visiteds') && queues'[|popped'|] == queue' && visiteds'[|popped'|] == visited'
    ensures |popped'| == |popped| + 1 && popped'[..|popped|] == popped && queues'[0] == queues[0]
    ensures arrived.Some? <==> Arrives(avoid, visited, goal, popped'[|popped|])
    ensures arrived.Some? ==> Ended(avoid, goal, popped', visiteds') && arrived.value == Last(popped')
    ensures arrived.None? ==> Traced(el, avoid, start, goal, visited', queue', popped', queues', visiteds')
    ensures |queue'| + 1 == |queue| + pushes
    ensures visited' == visited ==> pushes == 0
    ensures arrived.None? ==> Inv(el, avoid, start, goal, visited', dist', queue')
    ensures arrived.None? ==> |visited'| <= |visited| + 1
    ensures arrived.None? ==> |Cities(el, start) - visited'| < |Cities(el, start) - visited|
                              || (visited' == visited && |queue'| < |queue|)
    ensures arrived.Some? ==> var (c, _, p) := arrived.value;
      && ClearWalk(el, avoid, p, ws, start, goal) && NoDup(p) && Sum(ws) == c
      && LowerBound(el, avoid, start, goal, c) && |p| <= |visited| + 1
      && (NoParallel(el) ==> RouteCost(el, p) == Fin(c))
  {
    LeastExists(queue);
    var e :| IsLeast(queue, e);
    if Blocked(avoid, e.1) || e.1 in visited {
      queue' := Skip(el, start, goal, avoid, visited, dist, queue, e);
      visited', dist', arrived, pushes, ws := visited, dist, None, 0, [];
    } else {
      visited', dist', queue', arrived, pushes, ws := Enter(el, start, goal, avoid, visited, dist, queue, e);
    }
    StepOf(el, avoid, goal, queue, visited, e, queue', visited', arrived);
    TraceSnoc(el, avoid, start, goal, visited, queue, popped, queues, visiteds, e, queue', visited', arrived);
    popped', queues', visiteds' := popped + [e], queues + [queue'], visiteds + [visited'];
  }

  /** The rest of a pass when the popped tuple `e` is dropped: the queue
      loses it and keeps the invariant. */
  method Skip(el: EdgeList, start: City, goal: City, avoid: Option<City>,
              visited: set<City>, ghost dist: map<City, nat>, queue: multiset<Entry>, e: Entry)
    returns (queue': multiset<Entry>)
    requires Inv(el, avoid, start, goal, visited, dist, queue) && e in queue
    requires Blocked(avoid, e.1) || e.1 in visited
    ensures queue' == queue - multiset{e} && |queue'| + 1 == |queue|
    ensures Inv(el, avoid, start, goal, visited, dist, queue')
  {
    Drop(el, avoid, start, goal, visited, dist, queue, e);
    queue' := queue - multiset{e};
  }

  /** The rest of a pass when the popped tuple `e` is kept: visit its city,
      push its pairs, and report the tuple if the city is the goal. */
  method Enter(el: EdgeList, start: City, goal: City, avoid: Option<City>,
               visited: set<City>, ghost dist: map<City, nat>, queue: multiset<Entry>, e: Entry)
    returns (visited': set<City>, ghost dist': map<City, nat>, queue': multiset<Entry>, arrived: Option<Entry>,
             pushes: nat, ghost ws: seq<nat>)
    requires Inv(el, avoid, start, goal, visited, dist, queue) && IsLeast(queue, e)
    requires !Blocked(avoid, e.1) && e.1 !in visited
    ensures visited' == visited + {e.1} && queue' == Next(el, avoid, visited', queue, e)
    ensures arrived == if e.1 == goal then Some(e) else None
    ensures |queue'| + 1 == |queue| + pushes
    ensures arrived.None? ==> Inv(el, avoid, start, goal, visited', dist', queue')
    ensures arrived.None? ==> |Cities(el, start) - visited'| < |Cities(el, start) - visited|
    ensures arrived.Some? ==> var (c, _, p) := arrived.value;
      && ClearWalk(el, avoid, p, ws, start, goal) && NoDup(p) && Sum(ws) == c
      && LowerBound(el, avoid, start, goal, c) && |p| <= |visited| + 1
      && (NoParallel(el) ==> RouteCost(el, p) == Fin(c))
  {
    var (c, city, p) := e;
    ws := [];
    if city == goal {
      ws := Arrive(el, avoid, start, goal, visited, dist, queue, e);
    } else {
      Visit(el, avoid, start, goal, visited, dist, queue, e);
      Shrinks(Cities(el, start), visited, city);
    }
    visited' := visited + {city};
    dist' := dist[city := c];
    queue', pushes := queue - multiset{e}, 0;
    if city in el {
      queue', pushes := Expand(el[city], visited', avoid, c, p, queue');
    }
    assert queue' == Next(el, avoid, visited', queue, e);
    arrived := if city == goal then Some(e) else None;
  }

  /** The `while` loop of `dijkstra`: pop tuples until the goal's is visited
      or the queue runs dry, counting the pops. The ghost `popped` lists the
      popped tuples, and `queues` and `visiteds` the queue and the visited
      cities before each pop and after the last: only the last pop can end
      at the goal, and otherwise the last queue is empty. */
  method Search(el: EdgeList, start: City, goal: City, avoid: Option<City>)
    returns (arrived: Option<Entry>, iterations: nat, ghost ws: seq<nat>, ghost pushes: nat,
             ghost popped: seq<Entry>, ghost queues: seq<multiset<Entry>>, ghost visiteds: seq<set<City>>,
             ghost dist: map<City, nat>)
    ensures Pops(el, avoid, popped, queues, visiteds) && queues[0] == multiset{(0, start, [start])}
    ensures iterations == |popped| && iterations + |queues[|popped|]| == 1 + pushes
    ensures arrived.Some? ==> Ended(avoid, goal, popped, visiteds) && arrived.value == Last(popped)
    ensures arrived.Some? ==> var (c, _, p) := arrived.value;
      && ClearWalk(el, avoid, p, ws, start, goal) && NoDup(p) && Sum(ws) == c
      && LowerBound(el, avoid, start, goal, c) && |p| <= iterations
      && (NoParallel(el) ==> RouteCost(el, p) == Fin(c))
    ensures arrived.None? ==> NoArrival(avoid, goal, popped, visiteds, |popped|) && queues[|popped|] == multiset{}
                              && Inv(el, avoid, start, goal, visiteds[|popped|], dist, multiset{})
  {
    iterations, pushes, arrived, ws := 0, 0, None, [];
    var visits: set<City> := {};
    dist := map[];
    var queue: multiset<Entry> := multiset{(0, start, [start])};
    popped, queues, visiteds := [], [queue], [visits];
    InvInit(el, avoid, start, goal);
    while |queue| > 0
      invariant Inv(el, avoid, start, goal, visits, dist, queue)
      invariant |visits| <= iterations && (iterations == 0 ==> |queue| > 0)
      invariant Traced(el, avoid, start, goal, visits, queue, popped, queues, visiteds) && arrived.None?
      invariant iterations == |popped| && iterations + |queue| == 1 + pushes
      decreases |Cities(el, start) - visits|, |queue|
    {
      iterations := iterations + 1;
      var pushed;
      visits, dist, queue, arrived, pushed, ws, popped, queues, visiteds :=
        Pop(el, start, goal, avoid, visits, dist, queue, popped, queues, visiteds);
      pushes := pushes + pushed;
      if arrived.Some? {
        return;
      }
    }
  }

  /** `dijkstra`: the goal's route and its cost, or `[]` and infinity, and the
      number of pops, which is one for the first tuple and one for each tuple
      pushed (`pushes` in all) but for the `left` ones still queued at the
      goal; `popped`, `queues` and `visiteds` trace the pops as in `Search`. */
  method Dijkstra(el: EdgeList, start: City, goal: City, avoid: Option<City>)
    returns (path: seq<City>, cost: Cost, iterations: nat, ghost ws: seq<nat>, ghost pushes: nat, ghost left: nat,
             ghost popped: seq<Entry>, ghost queues: seq<multiset<Entry>>, ghost visiteds: seq<set<City>>)
    ensures path == [] <==> cost.Inf?
    ensures cost.Inf? <==> !Connected(el, avoid, start, goal)
    ensures cost.Fin? ==> ClearWalk(el, avoid, path, ws, start, goal) && NoDup(path) && cost.val == Sum(ws)
    ensures cost.Fin? ==> LowerBound(el, avoid, start, goal, cost.val)
    ensures cost.Fin? && NoParallel(el) ==> cost == RouteCost(el, path)
    ensures 1 <= iterations && (cost.Fin? ==> |path| <= iterations)
    ensures iterations + left == 1 + pushes && (cost.Inf? ==> left == 0)
    ensures Pops(el, avoid, popped, queues, visiteds) && queues[0] == multiset{(0, start, [start])}
    ensures iterations == |popped| && left == |queues[|popped|]|
    ensures cost.Fin? ==> Ended(avoid, goal, popped, visiteds) && path == Last(popped).2 && cost == Fin(Last(popped).0)
    ensures cost.Inf? ==> NoArrival(avoid, goal, popped, visiteds, |popped|) && queues[|popped|] == multiset{}
  {
    var arrived;
    ghost var dist;
    arrived, iterations, ws, pushes, popped, queues, visiteds, dist := Search(el, start, goal, avoid);
    left := |queues[|popped|]|;
    if arrived.Some? {
      path, cost := arrived.value.2, Fin(arrived.value.0);
    } else {
      Exhausted(el, avoid, start, goal, visiteds[|popped|], dist);
      path, cost := [], Inf;
    }
  }
}
