/** The priority queue of the route finder's Dijkstra search: a `heapq` list
    of (cost, city, path) tuples. `heappop` returns the least tuple under
    Python's comparison, which compares tuples, strings and lists
    lexicographically (a proper prefix is smaller, strings compare by code
    point). The heap order of the list is not observable, so the queue is
    modelled as the multiset of its tuples and a pop as the least of them. */
module RouteQueue {
  import opened RouteGraph

  type Entry = (nat, City, seq<City>)

  /** Python's `a <= b` on strings. */
  predicate StrLe(a: City, b: City) {
    if |a| == 0 then true
    else if |b| == 0 then false
    else if a[0] != b[0] then a[0] < b[0]
    else StrLe(a[1..], b[1..])
  }

  lemma {:induction false} StrLeTotal(a: City, b: City)
    ensures StrLe(a, b) || StrLe(b, a)
  {
    if |a| > 0 && |b| > 0 && a[0] == b[0] {
      StrLeTotal(a[1..], b[1..]);
    }
  }

  lemma {:induction false} StrLeTrans(a: City, b: City, c: City)
    requires StrLe(a, b) && StrLe(b, c)
    ensures StrLe(a, c)
  {
    if |a| > 0 && |b| > 0 && |c| > 0 && a[0] == b[0] == c[0] {
      StrLeTrans(a[1..], b[1..], c[1..]);
    }
  }

  lemma {:induction false} StrLeAntisym(a: City, b: City)
    requires StrLe(a, b) && StrLe(b, a)
    ensures a == b
  {
    if |a| > 0 && |b| > 0 {
      StrLeAntisym(a[1..], b[1..]);
      assert a == [a[0]] + a[1..] && b == [b[0]] + b[1..];
    }
  }

  /** Python's `a <= b` on lists of strings. */
  predicate ListLe(a: seq<City>, b: seq<City>) {
    if |a| == 0 then true
    else if |b| == 0 then false
    else if a[0] != b[0] then StrLe(a[0], b[0])
    else ListLe(a[1..], b[1..])
  }

  lemma {:induction false} ListLeTotal(a: seq<City>, b: seq<City>)
    ensures ListLe(a, b) || ListLe(b, a)
  {
    if |a| > 0 && |b| > 0 {
      if a[0] == b[0] {
        ListLeTotal(a[1..], b[1..]);
      } else {
        StrLeTotal(a[0], b[0]);
      }
    }
  }

  lemma {:induction false} ListLeTrans(a: seq<City>, b: seq<City>, c: seq<City>)
    requires ListLe(a, b) && ListLe(b, c)
    ensures ListLe(a, c)
  {
    if |a| > 0 && |b| > 0 && |c| > 0 {
      if a[0] == b[0] == c[0] {
        ListLeTrans(a[1..], b[1..], c[1..]);
      } else if a[0] == b[0] {
      } else if b[0] == c[0] {
      } else {
        StrLeTrans(a[0], b[0], c[0]);
        if a[0] == c[0] {
          StrLeAntisym(a[0], b[0]);
        }
      }
    }
  }

  lemma {:induction false} ListLeAntisym(a: seq<City>, b: seq<City>)
    requires ListLe(a, b) && ListLe(b, a)
    ensures a == b
  {
    if |a| > 0 && |b| > 0 {
      if a[0] == b[0] {
        ListLeAntisym(a[1..], b[1..]);
        assert a == [a[0]] + a[1..] && b == [b[0]] + b[1..];
      } else {
        StrLeAntisym(a[0], b[0]);
      }
    }
  }

  /** Python's `x <= y` on (cost, city, path) tuples. */
  predicate EntryLe(x: Entry, y: Entry) {
    if x.0 != y.0 then x.0 < y.0
    else if x.1 != y.1 then StrLe(x.1, y.1)
    else ListLe(x.2, y.2)
  }

  /** The tuple order is total, transitive and antisymmetric. */
  lemma EntryLeOrder(x: Entry, y: Entry, z: Entry)
    ensures EntryLe(x, y) || EntryLe(y, x)
    ensures EntryLe(x, y) && EntryLe(y, z) ==> EntryLe(x, z)
    ensures EntryLe(x, y) && EntryLe(y, x) ==> x == y
  {
    StrLeTotal(x.1, y.1);
    ListLeTotal(x.2, y.2);
    if EntryLe(x, y) && EntryLe(y, z) {
      if x.0 == y.0 == z.0 {
        if x.1 == y.1 == z.1 {
          ListLeTrans(x.2, y.2, z.2);
        } else if x.1 != y.1 && y.1 != z.1 {
          StrLeTrans(x.1, y.1, z.1);
          if x.1 == z.1 {
            StrLeAntisym(x.1, y.1);
          }
        }
      }
    }
    if EntryLe(x, y) && EntryLe(y, x) {
      if x.1 != y.1 {
        StrLeAntisym(x.1, y.1);
      }
      ListLeAntisym(x.2, y.2);
    }
  }

  /** `e` is a least tuple of `q`. */
  predicate IsLeast(q: multiset<Entry>, e: Entry) {
    e in q && forall f :: f in q ==> EntryLe(e, f)
  }

  /** Every non-empty queue has a least tuple. */
  lemma LeastExists(q: multiset<Entry>)
    requires |q| > 0
    ensures exists e :: IsLeast(q, e)
  {
    var e := LeastOf(q);
  }

  /** A least tuple of a non-empty queue, found by setting one tuple aside
      and comparing it with the least of the rest. */
  lemma {:induction false} LeastOf(q: multiset<Entry>) returns (e: Entry)
    requires |q| > 0
    ensures IsLeast(q, e)
  {
    var y :| y in q;
    var rest := q - multiset{y};
    if |rest| == 0 {
      Lone(q, y);
      e := y;
    } else {
      var r := LeastOf(rest);
      e := LeastOfTwo(q, y, r);
    }
  }

  /** A queue that is empty once `y` is set aside holds nothing but `y`. */
  lemma Lone(q: multiset<Entry>, y: Entry)
    requires y in q && |q - multiset{y}| == 0
    ensures IsLeast(q, y)
  {
    assert q - multiset{y} == multiset{};
    assert q == multiset{y} by {
      assert q == (q - multiset{y}) + multiset{y};
    }
    EntryLeOrder(y, y, y);
  }

  /** The lesser of `y` and the least tuple `r` of the rest is least. */
  lemma LeastOfTwo(q: multiset<Entry>, y: Entry, r: Entry) returns (e: Entry)
    requires y in q && IsLeast(q - multiset{y}, r)
    ensures IsLeast(q, e)
  {
    EntryLeOrder(r, y, y);
    e := if EntryLe(r, y) then r else y;
    forall f | f in q ensures EntryLe(e, f) {
      if f != y {
        assert f in q - multiset{y};
        EntryLeOrder(y, r, f);
      } else {
        EntryLeOrder(f, f, f);
      }
    }
  }

  /** The least tuple is unique, so `heappop` is determined by the queue's
      contents alone. */
  lemma LeastUnique(q: multiset<Entry>, e: Entry, e': Entry)
    requires IsLeast(q, e) && IsLeast(q, e')
    ensures e == e'
  {
    EntryLeOrder(e, e', e);
  }
}
