/** The min-ordered worklist of the best-first searches:
    `std::priority_queue<pair<int,int>, vector<pair<int,int>>, greater<pair<int,int>>>`.
    A pair is (priority, node) and pairs compare lexicographically, so `top()`
    is the entry with the least priority and, among equal priorities, the least
    node index. Only the multiset of entries is observable, because `top()`
    picks by value, so the queue is modelled as that multiset. */
module Frontier {

  type Entry = (nat, nat)

  /** Lexicographic `<=` on (priority, node). */
  predicate EntryLe(a: Entry, b: Entry) {
    a.0 < b.0 || (a.0 == b.0 && a.1 <= b.1)
  }

  /** The least entry of a non-empty queue, viewed as the multiset of its
      entries: what `top()` returns. */
  ghost function Least(q: multiset<Entry>): (e: Entry)
    requires |q| > 0
    ensures e in q && forall x :: x in q ==> EntryLe(e, x)
  {
    LeastExists(q);
    var e :| e in q && forall x :: x in q ==> EntryLe(e, x);
    e
  }

  /** Every non-empty queue has a least entry: the order is total. */
  lemma LeastExists(q: multiset<Entry>)
    requires |q| > 0
    ensures exists e :: e in q && forall x :: x in q ==> EntryLe(e, x)
  {
    var e := LeastOf(q);
  }

  /** A least entry of a non-empty queue, found by setting one entry aside
      and comparing it with the least of the rest. */
  lemma {:induction false} LeastOf(q: multiset<Entry>) returns (e: Entry)
    requires |q| > 0
    ensures e in q && forall x :: x in q ==> EntryLe(e, x)
  {
    var y :| y in q;
    var rest := q - multiset{y};
    if |rest| == 0 {
      Lone(q, y);
      e := y;
    } else {
      var r := LeastOf(rest);
      e := LeastOfTwo(q, y, r);
    }
  }

  /** A queue that is empty once `y` is set aside holds nothing but `y`. */
  lemma Lone(q: multiset<Entry>, y: Entry)
    requires y in q && |q - multiset{y}| == 0
    ensures forall x :: x in q ==> EntryLe(y, x)
  {
    assert q - multiset{y} == multiset{};
    assert q == multiset{y} by {
      assert q == (q - multiset{y}) + multiset{y};
    }
  }

  /** The lesser of `y` and the least entry `r` of the rest is least. */
  lemma LeastOfTwo(q: multiset<Entry>, y: Entry, r: Entry) returns (e: Entry)
    requires y in q && r in q - multiset{y} && forall x :: x in q - multiset{y} ==> EntryLe(r, x)
    ensures e in q && forall x :: x in q ==> EntryLe(e, x)
  {
    e := if EntryLe(r, y) then r else y;
    forall x | x in q ensures EntryLe(e, x) {
      if x != y {
        assert x in q - multiset{y};
      }
    }
  }

  /** The least entry is unique: the order is antisymmetric, so `top()` is
      determined by the queue's contents alone. */
  lemma LeastUnique(q: multiset<Entry>, e: Entry)
    requires e in q && forall x :: x in q ==> EntryLe(e, x)
    ensures e == Least(q)
  {
    var m := Least(q);
    assert EntryLe(e, m) && EntryLe(m, e);
  }
}
