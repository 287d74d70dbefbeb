/** Shared vocabulary of the search routines: optional values, costs with an
    explicit infinity (the sources' INT_MAX and float("inf")), duplicate-free
    sequences, positions in a sequence and counters over boolean vectors. */
module Common {

  datatype Option<T> = None | Some(value: T)

  /** A path cost or a best-known distance; `Inf` stands for "not reached". */
  datatype Cost = Fin(val: nat) | Inf

  /** The largest value of a 32-bit `int`: the sources' "not reached" sentinel. */
  const IntMax: nat := 0x7fff_ffff

  /** The integer a source stores for a cost: `INT_MAX` for infinity. */
  function Stored(c: Cost): nat {
    if c.Fin? then c.val else IntMax
  }

  /** `c + w`, where infinity absorbs any finite weight. */
  function AddCost(c: Cost, w: nat): (r: Cost)
    ensures r.Inf? <==> c.Inf?
    ensures c.Fin? ==> r.val == c.val + w
  {
    match c
    case Fin(x) => Fin(x + w)
    case Inf => Inf
  }

  /** `c > x` for a finite `x`: infinity is larger than every finite value. */
  predicate Exceeds(c: Cost, x: nat) {
    c.Inf? || c.val > x
  }

  /** `c <= x` for a finite `x`. */
  predicate AtMost(c: Cost, x: nat) {
    c.Fin? && c.val <= x
  }

  ghost predicate NoDup<T>(s: seq<T>) {
    forall i, j :: 0 <= i < j < |s| ==> s[i] != s[j]
  }

  /** Index of the first occurrence of `x` in `s`, or `|s|` when `x` is absent. */
  function Pos<T(==)>(s: seq<T>, x: T): (k: nat)
    ensures k <= |s|
    ensures k < |s| ==> s[k] == x
    ensures x in s <==> k < |s|
    ensures forall j :: 0 <= j < k ==> s[j] != x
  {
    if |s| == 0 then 0 else if s[0] == x then 0 else 1 + Pos(s[1..], x)
  }

  /** Appending an element leaves the position of every earlier element alone,
      and moves every absent element to the new end. */
  lemma PosAppend<T>(s: seq<T>, y: T, x: T)
    ensures x in s ==> Pos(s + [y], x) == Pos(s, x)
    ensures x !in s && x == y ==> Pos(s + [y], x) == |s|
    ensures x !in s && x != y ==> Pos(s + [y], x) == |s| + 1
  {
    var k, k' := Pos(s, x), Pos(s + [y], x);
    if x in s {
      assert (s + [y])[k] == x;
    } else {
      assert forall j :: 0 <= j < |s| ==> (s + [y])[j] != x;
    }
  }

  /** Number of `false` entries: the nodes a search has not closed yet. */
  function CountFalse(s: seq<bool>): (c: nat)
    ensures c <= |s|
    ensures c == 0 <==> forall i :: 0 <= i < |s| ==> s[i]
  {
    if |s| == 0 then 0 else (if s[0] then 0 else 1) + CountFalse(s[1..])
  }

  /** Closing one more node strictly lowers the count. */
  lemma {:induction false} CountFalseSet(s: seq<bool>, i: nat)
    requires i < |s| && !s[i]
    ensures CountFalse(s[i := true]) == CountFalse(s) - 1
  {
    if i > 0 {
      assert s[i := true][1..] == s[1..][i - 1 := true];
      CountFalseSet(s[1..], i - 1);
    } else {
      assert s[i := true][1..] == s[1..];
    }
  }

  /** A vector of `n` copies of `x`, as `vector<T>(n, x)` builds it. */
  function Fill<T>(n: nat, x: T): (s: seq<T>)
    ensures |s| == n && forall i :: 0 <= i < n ==> s[i] == x
  {
    seq(n, _ => x)
  }

  /** A vector of `n` cleared flags, as `vector<bool>(n, false)` builds it. */
  function Falses(n: nat): (s: seq<bool>)
    ensures |s| == n && forall i :: 0 <= i < n ==> !s[i]
  {
    Fill(n, false)
  }

  /** With no flag set, every entry counts. */
  lemma {:induction false} CountFalses(n: nat)
    ensures CountFalse(Falses(n)) == n
  {
    if n > 0 {
      assert Falses(n)[1..] == Falses(n - 1);
      CountFalses(n - 1);
    }
  }

  /** A scan that has marked the entries of `ns` before index `i` and now
      marks `ns[i]`, unmarking nothing, has marked the entries up to `i`. */
  lemma MarkedPrefix(before: seq<bool>, after: seq<bool>, ns: seq<nat>, i: nat)
    requires i < |ns| && |after| == |before| && forall k :: 0 <= k < |ns| ==> ns[k] < |before|
    requires forall k :: 0 <= k < i ==> before[ns[k]]
    requires forall x :: 0 <= x < |before| && before[x] ==> after[x]
    requires after[ns[i]]
    ensures forall k :: 0 <= k < i + 1 ==> after[ns[k]]
  {
  }

  /** The same, for a scan running from the last entry down: marking `ns[i]`
      extends the marked suffix that starts after `i`. */
  lemma MarkedSuffix(before: seq<bool>, after: seq<bool>, ns: seq<nat>, i: nat)
    requires i < |ns| && |after| == |before| && forall k :: 0 <= k < |ns| ==> ns[k] < |before|
    requires forall k :: i < k < |ns| ==> before[ns[k]]
    requires forall x :: 0 <= x < |before| && before[x] ==> after[x]
    requires after[ns[i]]
    ensures forall k :: i <= k < |ns| ==> after[ns[k]]
  {
  }
}
