/** The route finder's random initial route: a depth-first search that
    shuffles the neighbours of each city before trying them. The set of
    visited cities is shared by the whole search (it is passed by reference
    and only ever grows), so a city whose search failed is never searched
    again. Cities equal to the avoided name are never entered; the start is
    not tested against it. The shuffle is a parameter: any function that
    returns a permutation of its argument. */
module RandomRoute {
  import opened Common
  import opened RouteGraph

  /** `n != avoid` fails: the city is the avoided one. */
  predicate Excluded(avoid: Option<City>, c: City) {
    avoid.Some? && c == avoid.value
  }

  /** Some pair of `es` names `v`. */
  ghost predicate Lists(es: seq<(City, nat)>, v: City) {
    exists k :: 0 <= k < |es| && es[k].0 == v
  }

  /** The neighbours `[n for n, w in es if n not in visited and n != avoid]`. */
  function Candidates(es: seq<(City, nat)>, visited: set<City>, avoid: Option<City>): seq<City> {
    if |es| == 0 then []
    else
      var n := es[|es| - 1].0;
      Candidates(es[..|es| - 1], visited, avoid) + if n in visited || Excluded(avoid, n) then [] else [n]
  }

  /** A city is a candidate exactly when it is listed, unvisited and not
      excluded. */
  lemma {:induction false} CandidatesMembers(es: seq<(City, nat)>, visited: set<City>, avoid: Option<City>, n: City)
    ensures n in Candidates(es, visited, avoid) <==> Lists(es, n) && n !in visited && !Excluded(avoid, n)
  {
    if |es| > 0 {
      var es' := es[..|es| - 1];
      CandidatesMembers(es', visited, avoid, n);
      if Lists(es, n) {
        var k :| 0 <= k < |es| && es[k].0 == n;
        if k < |es| - 1 {
          assert es'[k] == es[k];
        }
      }
      if Lists(es', n) {
        var k :| 0 <= k < |es'| && es'[k].0 == n;
        assert es[k] == es'[k];
      }
    }
  }

  /** A listed pair is an edge of the map. */
  lemma ListsEdge(el: EdgeList, u: City, v: City)
    requires Lists(Neighbours(el, u), v)
    ensures HasEdge(el, u, v)
  {
    FirstWeightSpec(Neighbours(el, u), v);
  }

  /** The search from `x` failed: `x` is not the goal and every neighbour of
      `x` is visited or excluded. */
  ghost predicate Done(el: EdgeList, avoid: Option<City>, goal: City, visited: set<City>, x: City) {
    x != goal && forall v :: HasEdge(el, x, v) ==> v in visited || Excluded(avoid, v)
  }

  /** Every visited city whose search is not still open has failed. */
  ghost predicate Closed(el: EdgeList, avoid: Option<City>, goal: City, visited: set<City>, stack: set<City>) {
    forall x :: x in visited && x !in stack ==> Done(el, avoid, goal, visited, x)
  }

  /** A route from `s` to `t` along listed pairs whose cities after the start
      are not excluded. */
  ghost predicate FreeRoute(el: EdgeList, avoid: Option<City>, p: seq<City>, s: City, t: City) {
    && |p| >= 1 && p[0] == s && p[|p| - 1] == t && Linked(el, p)
    && forall i :: 0 < i < |p| ==> !Excluded(avoid, p[i])
  }

  /** Opening the search of `x` keeps every other visited city closed. */
  lemma ClosedOpen(el: EdgeList, avoid: Option<City>, goal: City, visited: set<City>, stack: set<City>, x: City)
    requires Closed(el, avoid, goal, visited, stack)
    ensures Closed(el, avoid, goal, visited + {x}, stack + {x})
  {
    forall y | y in visited + {x} && y !in stack + {x} ensures Done(el, avoid, goal, visited + {x}, y) {
      assert Done(el, avoid, goal, visited, y);
    }
  }

  /** A candidate neighbour of `current`, drawn after `current` was added to
      the visited set `vf`: `current` had not been searched before, the
      neighbour is an unvisited, non-excluded city of the map listed as an
      edge of `current`, and the unvisited part of the map shrinks. */
  lemma Candidate(el: EdgeList, avoid: Option<City>, goal: City, visited0: set<City>, stack: set<City>,
                  current: City, vf: set<City>, visited: set<City>, n: City)
    requires Closed(el, avoid, goal, visited0, stack) && current !in stack
    requires vf == visited0 + {current} && vf <= visited
    requires n in Candidates(Neighbours(el, current), vf, avoid)
    ensures current !in visited0 && n !in vf && !Excluded(avoid, n) && HasEdge(el, current, n)
    ensures |Places(el) + {n} - visited| < |Places(el) + {current} - visited0|
  {
    var es := Neighbours(el, current);
    CandidatesMembers(es, vf, avoid, n);
    ListsEdge(el, current, n);
    var k :| 0 <= k < |es| && es[k].0 == n;
    ListedPlace(el, current, k);
    Shrinks(Places(el), visited0, visited, current, n);
  }

  /** Once every candidate has been searched, every neighbour of `current` is
      visited or excluded. */
  lemma Finished(el: EdgeList, avoid: Option<City>, current: City, vf: set<City>, visited: set<City>,
                 candidates: seq<City>, neighbors: seq<City>)
    requires candidates == Candidates(Neighbours(el, current), vf, avoid) && vf <= visited
    requires multiset(neighbors) == multiset(candidates)
    requires forall j :: 0 <= j < |neighbors| ==> neighbors[j] in visited
    ensures forall v :: HasEdge(el, current, v) ==> v in visited || Excluded(avoid, v)
  {
    forall v | HasEdge(el, current, v) ensures v in visited || Excluded(avoid, v) {
      FirstWeightSpec(Neighbours(el, current), v);
      CandidatesMembers(Neighbours(el, current), vf, avoid, v);
      if v in candidates {
        assert v in multiset(neighbors);
        var j :| 0 <= j < |neighbors| && neighbors[j] == v;
      }
    }
  }

  /** Visiting one more city of the map shrinks the unvisited part. */
  lemma Shrinks(u: set<City>, visited0: set<City>, visited: set<City>, current: City, n: City)
    requires current !in visited0 && visited0 + {current} <= visited && n in u
    ensures |u + {n} - visited| < |u + {current} - visited0|
  {
    var a, b := u + {n} - visited, u + {current} - visited0;
    assert a <= b - {current};
    assert current in b;
    assert |b - {current}| == |b| - 1;
    SubsetCard(a, b - {current});
  }

  lemma SubsetCard(a: set<City>, b: set<City>)
    requires a <= b
    ensures |a| <= |b|
  {
    assert b == a + (b - a);
  }

  /** `generate_random_path`: the route `path` has reached `current`; extend
      it to the goal through unvisited, non-excluded cities, trying the
      neighbours of `current` in shuffled order. Returns the extended route,
      or nothing, together with the grown visited set. The ghost `stack`
      holds the cities of the calls still open above this one, and `ext` is
      the part of the route added below `current`. */
  method RandomPath(el: EdgeList, current: City, goal: City, visited0: set<City>, path: seq<City>,
                    avoid: Option<City>, shuffle: seq<City> -> seq<City>, ghost stack: set<City>)
    returns (res: Option<seq<City>>, visited: set<City>, ghost ext: seq<City>)
    requires forall s :: multiset(shuffle(s)) == multiset(s)
    requires |path| >= 1 && path[|path| - 1] == current && NoDup(path)
    requires forall i :: 0 <= i < |path| - 1 ==> path[i] in stack
    requires stack <= visited0 && current !in stack && goal !in visited0
    requires Closed(el, avoid, goal, visited0, stack)
    decreases |Places(el) + {current} - visited0|
    ensures visited0 <= visited && goal !in visited
    ensures current == goal ==> res == Some(path) && visited == visited0
    ensures res.Some? ==> res.value == path + ext && current !in visited0
    ensures res.Some? ==> Linked(el, [current] + ext) && ([current] + ext)[|ext|] == goal && NoDup([current] + ext)
    ensures res.Some? ==> forall i :: 0 <= i < |ext| ==> !Excluded(avoid, ext[i]) && ext[i] !in visited0
    ensures res.None? ==> current in visited && Closed(el, avoid, goal, visited, stack)
  {
    if current == goal {
      return Some(path), visited0, [];
    }
    visited := visited0 + {current};
    ClosedOpen(el, avoid, goal, visited0, stack, current);
    ghost var vf := visited;
    var candidates := Candidates(Neighbours(el, current), visited, avoid);
    var neighbors := shuffle(candidates);
    assert multiset(neighbors) == multiset(candidates);
    var i := 0;
    while i < |neighbors|
      invariant i <= |neighbors| && vf <= visited && goal !in visited
      invariant Closed(el, avoid, goal, visited, stack + {current})
      invariant forall j :: 0 <= j < i ==> neighbors[j] in visited
    {
      var neighbor := neighbors[i];
      assert neighbor in multiset(candidates);
      Candidate(el, avoid, goal, visited0, stack, current, vf, visited, neighbor);
      Descend(path, stack, current, vf, neighbor);
      ghost var before := visited;
      var r, visited', e' := RandomPath(el, neighbor, goal, visited, path + [neighbor], avoid, shuffle, stack + {current});
      visited := visited';
      if r.Some? && r.value != [] {
        ghost var ext' := [neighbor] + e';
        Lift(el, avoid, goal, current, neighbor, path, e', ext', before, visited0);
        return r, visited, ext';
      }
      Searched(neighbors, i, before, visited);
      i := i + 1;
    }
    Finished(el, avoid, current, vf, visited, candidates, neighbors);
    assert Done(el, avoid, goal, visited, current);
    res, ext := None, [];
  }

  /** A route found from the neighbour `n` is a route found from `current`,
      one city longer. */
  lemma Lift(el: EdgeList, avoid: Option<City>, goal: City, current: City, n: City, path: seq<City>,
             e: seq<City>, ext: seq<City>, before: set<City>, visited0: set<City>)
    requires ext == [n] + e
    requires HasEdge(el, current, n) && current in before && visited0 <= before
    requires n !in before && !Excluded(avoid, n)
    requires Linked(el, [n] + e) && ([n] + e)[|e|] == goal && NoDup([n] + e)
    requires forall i :: 0 <= i < |e| ==> !Excluded(avoid, e[i]) && e[i] !in before
    ensures (path + [n]) + e == path + ext
    ensures Linked(el, [current] + ext) && ([current] + ext)[|ext|] == goal && NoDup([current] + ext)
    ensures forall i :: 0 <= i < |ext| ==> !Excluded(avoid, ext[i]) && ext[i] !in visited0
  {
    Extend(el, avoid, current, n, e, before, visited0);
  }

  /** The searched prefix of the candidates stays visited as the visited set
      grows, and takes in the candidate just searched. */
  lemma Searched(ns: seq<City>, i: nat, before: set<City>, visited: set<City>)
    requires i < |ns| && before <= visited && ns[i] in visited
    requires forall j :: 0 <= j < i ==> ns[j] in before
    ensures forall j :: 0 <= j < i + 1 ==> ns[j] in visited
  {
  }

  /** The route handed to the search of an unvisited neighbour keeps its
      cities distinct and its earlier cities open. */
  lemma Descend(path: seq<City>, stack: set<City>, current: City, vf: set<City>, n: City)
    requires |path| >= 1 && path[|path| - 1] == current && NoDup(path)
    requires forall i :: 0 <= i < |path| - 1 ==> path[i] in stack
    requires stack + {current} <= vf && n !in vf
    ensures NoDup(path + [n]) && (path + [n])[|path|] == n
    ensures forall i :: 0 <= i < |path| ==> (path + [n])[i] in stack + {current}
  {
  }

  /** A successful search from an unvisited neighbour `n` extends to one from
      `current`. */
  lemma Extend(el: EdgeList, avoid: Option<City>, current: City, n: City, e: seq<City>,
               before: set<City>, visited0: set<City>)
    requires HasEdge(el, current, n) && current in before && visited0 <= before
    requires n !in before && !Excluded(avoid, n)
    requires Linked(el, [n] + e) && NoDup([n] + e)
    requires forall i :: 0 <= i < |e| ==> !Excluded(avoid, e[i]) && e[i] !in before
    ensures Linked(el, [current] + ([n] + e)) && NoDup([current] + ([n] + e))
    ensures forall i :: 0 <= i < |[n] + e| ==> !Excluded(avoid, ([n] + e)[i]) && ([n] + e)[i] !in visited0
  {
    var q := [current] + ([n] + e);
    forall i | 0 <= i < |q| - 1 ensures HasEdge(el, q[i], q[i + 1]) {
      if i > 0 {
        assert q[i] == ([n] + e)[i - 1] && q[i + 1] == ([n] + e)[i];
      }
    }
    forall i | 0 < i < |q| ensures q[i] != current {
      assert q[i] == ([n] + e)[i - 1];
      if i > 1 {
        assert q[i] == e[i - 2];
      }
    }
    forall i | 0 <= i < |[n] + e| ensures !Excluded(avoid, ([n] + e)[i]) && ([n] + e)[i] !in visited0 {
      if i > 0 {
        assert ([n] + e)[i] == e[i - 1];
      }
    }
  }

  /** `generate_random_path(edge_list, start, goal, set(), [start], avoid)`:
      a route found is a repetition-free route to the goal that never enters
      the avoided city after the start, and nothing is found only when no
      such route exists. */
  method InitialRoute(el: EdgeList, start: City, goal: City, avoid: Option<City>,
                      shuffle: seq<City> -> seq<City>) returns (route: Option<seq<City>>)
    requires forall s :: multiset(shuffle(s)) == multiset(s)
    ensures route.Some? ==> FreeRoute(el, avoid, route.value, start, goal) && NoDup(route.value)
    ensures route.None? <==> forall p :: !FreeRoute(el, avoid, p, start, goal)
  {
    var visited;
    ghost var ext;
    route, visited, ext := RandomPath(el, start, goal, {}, [start], avoid, shuffle, {});
    if route.Some? {
      var p := route.value;
      assert p == [start] + ext;
      forall i | 0 < i < |p| ensures !Excluded(avoid, p[i]) {
        assert p[i] == ext[i - 1];
      }
      assert FreeRoute(el, avoid, p, start, goal);
    } else {
      forall p ensures !FreeRoute(el, avoid, p, start, goal) {
        NoRouteOut(el, avoid, start, goal, visited, p);
      }
    }
  }

  /** A failed search leaves no free route from a visited city to the goal:
      the first city of such a route outside the visited set would have been
      a candidate of the visited city before it. */
  lemma NoRouteOut(el: EdgeList, avoid: Option<City>, s: City, goal: City, visited: set<City>, p: seq<City>)
    requires Closed(el, avoid, goal, visited, {}) && goal !in visited && s in visited
    ensures !FreeRoute(el, avoid, p, s, goal)
  {
    if !FreeRoute(el, avoid, p, s, goal) {
      return;
    }
    var k := 0;
    while k + 1 < |p| && p[k + 1] in visited
      invariant k < |p| && p[k] in visited
    {
      k := k + 1;
    }
  }
}
