/** Sorting a PnL series by numeric value, and the k-th smallest value of a
    series, defined by counting rather than by sorting. */
module OrderStatistics {

  predicate Sorted(s: seq<real>) {
    forall i, j :: 0 <= i < j < |s| ==> s[i] <= s[j]
  }

  /** Inserts `x` into an ascending series, keeping it ascending. */
  function Insert(x: real, s: seq<real>): (r: seq<real>)
    requires Sorted(s)
    ensures Sorted(r)
    ensures multiset(r) == multiset(s) + multiset{x}
    ensures |r| == |s| + 1
  {
    if s == [] then [x]
    else if x <= s[0] then [x] + s
    else
      var rest := Insert(x, s[1..]);
      assert s == [s[0]] + s[1..];
      BoundedByMultiset(s[0], s[1..], x, rest);
      PrependToSorted(s[0], rest);
      [s[0]] + rest
  }

  /** A lower bound of `t` and of `x` bounds every series holding their values. */
  lemma BoundedByMultiset(lo: real, t: seq<real>, x: real, r: seq<real>)
    requires forall k :: 0 <= k < |t| ==> lo <= t[k]
    requires lo <= x
    requires multiset(r) == multiset(t) + multiset{x}
    ensures forall k :: 0 <= k < |r| ==> lo <= r[k]
  {
    forall k | 0 <= k < |r|
      ensures lo <= r[k]
    {
      assert r[k] in multiset(r);
      if r[k] != x {
        assert r[k] in multiset(t);
      }
    }
  }

  lemma PrependToSorted(h: real, r: seq<real>)
    requires Sorted(r)
    requires forall k :: 0 <= k < |r| ==> h <= r[k]
    ensures Sorted([h] + r)
  {
  }

  /** A sorted copy of the series: the input itself is a value and is left as it was. */
  function SortAscending(s: seq<real>): (r: seq<real>)
    ensures Sorted(r)
    ensures multiset(r) == multiset(s)
    ensures |r| == |s|
  {
    if s == [] then []
    else
      assert s == [s[0]] + s[1..];
      Insert(s[0], SortAscending(s[1..]))
  }

  /** The number of values of `s` strictly below `v`. */
  function CountBelow(s: seq<real>, v: real): (n: nat)
    ensures n <= |s|
  {
    if s == [] then 0 else (if s[0] < v then 1 else 0) + CountBelow(s[1..], v)
  }

  /** The number of values of `s` at or below `v`. */
  function CountAtMost(s: seq<real>, v: real): (n: nat)
    ensures n <= |s|
  {
    if s == [] then 0 else (if s[0] <= v then 1 else 0) + CountAtMost(s[1..], v)
  }

  /** `v` is the k-th smallest value of `s` (0-based, counting repeated values
      once per occurrence): at most k values lie below it and more than k lie
      at or below it. This does not mention sorting. */
  ghost predicate IsOrderStatistic(s: seq<real>, k: nat, v: real) {
    v in s && CountBelow(s, v) <= k < CountAtMost(s, v)
  }

  lemma {:induction false} CountConcat(a: seq<real>, b: seq<real>, v: real)
    ensures CountBelow(a + b, v) == CountBelow(a, v) + CountBelow(b, v)
    ensures CountAtMost(a + b, v) == CountAtMost(a, v) + CountAtMost(b, v)
  {
    if a != [] {
      assert (a + b)[1..] == a[1..] + b;
      CountConcat(a[1..], b, v);
    } else {
      assert a + b == b;
    }
  }

  /** Removing position j takes exactly that one value out of the multiset. */
  lemma RemoveAtMultiset<T>(t: seq<T>, j: nat)
    requires j < |t|
    ensures multiset(t[..j] + t[j+1..]) == multiset(t) - multiset{t[j]}
  {
    assert t == t[..j] + [t[j]] + t[j+1..];
  }

  /** Removing position j lowers each count by that value's own contribution. */
  lemma RemoveAtCount(t: seq<real>, j: nat, v: real)
    requires j < |t|
    ensures CountBelow(t, v) == CountBelow(t[..j] + t[j+1..], v) + (if t[j] < v then 1 else 0)
    ensures CountAtMost(t, v) == CountAtMost(t[..j] + t[j+1..], v) + (if t[j] <= v then 1 else 0)
  {
    assert t == t[..j] + ([t[j]] + t[j+1..]);
    CountConcat(t[..j], [t[j]] + t[j+1..], v);
    CountConcat([t[j]], t[j+1..], v);
    CountConcat(t[..j], t[j+1..], v);
  }

  /** Both counts depend only on the multiset of values. */
  lemma {:induction false} CountPermutation(s: seq<real>, t: seq<real>, v: real)
    requires multiset(s) == multiset(t)
    ensures CountBelow(s, v) == CountBelow(t, v)
    ensures CountAtMost(s, v) == CountAtMost(t, v)
  {
    if s == [] {
      assert t == [];
    } else {
      assert s == [s[0]] + s[1..];
      assert multiset(s[1..]) == multiset(s) - multiset{s[0]};
      assert s[0] in multiset(t);
      var j :| 0 <= j < |t| && t[j] == s[0];
      RemoveAtMultiset(t, j);
      CountPermutation(s[1..], t[..j] + t[j+1..], v);
      RemoveAtCount(t, j, v);
    }
  }

  lemma {:induction false} CountBelowNone(s: seq<real>, v: real)
    requires forall i :: 0 <= i < |s| ==> v <= s[i]
    ensures CountBelow(s, v) == 0
  {
    if s != [] {
      CountBelowNone(s[1..], v);
    }
  }

  lemma {:induction false} CountAtMostAll(s: seq<real>, v: real)
    requires forall i :: 0 <= i < |s| ==> s[i] <= v
    ensures CountAtMost(s, v) == |s|
  {
    if s != [] {
      CountAtMostAll(s[1..], v);
    }
  }

  /** Every value at or below `v` is strictly below a larger `w`. */
  lemma {:induction false} CountAtMostBelowLarger(s: seq<real>, v: real, w: real)
    requires v < w
    ensures CountAtMost(s, v) <= CountBelow(s, w)
  {
    if s != [] {
      CountAtMostBelowLarger(s[1..], v, w);
    }
  }

  /** Position k of an ascending series holds its k-th smallest value. */
  lemma SortedIndexIsOrderStatistic(r: seq<real>, k: nat)
    requires Sorted(r) && k < |r|
    ensures IsOrderStatistic(r, k, r[k])
  {
    assert r == r[..k] + r[k..];
    CountConcat(r[..k], r[k..], r[k]);
    CountBelowNone(r[k..], r[k]);
    assert r == r[..k+1] + r[k+1..];
    CountConcat(r[..k+1], r[k+1..], r[k]);
    CountAtMostAll(r[..k+1], r[k]);
  }

  /** The k-th smallest value is the same for series with the same values. */
  lemma OrderStatisticPermutation(s: seq<real>, t: seq<real>, k: nat, v: real)
    requires multiset(s) == multiset(t)
    requires IsOrderStatistic(s, k, v)
    ensures IsOrderStatistic(t, k, v)
  {
    CountPermutation(s, t, v);
    assert v in multiset(s);
  }

  /** There is at most one k-th smallest value. */
  lemma OrderStatisticUnique(s: seq<real>, k: nat, v: real, w: real)
    requires IsOrderStatistic(s, k, v) && IsOrderStatistic(s, k, w)
    ensures v == w
  {
    if v < w {
      CountAtMostBelowLarger(s, v, w);
    } else if w < v {
      CountAtMostBelowLarger(s, w, v);
    }
  }

  lemma {:induction false} NoneBelowIsMinimum(s: seq<real>, v: real)
    requires CountBelow(s, v) == 0
    ensures forall i :: 0 <= i < |s| ==> v <= s[i]
  {
    if s != [] {
      NoneBelowIsMinimum(s[1..], v);
      assert forall i :: 1 <= i < |s| ==> s[i] == s[1..][i - 1];
    }
  }

  /** The 0-th smallest value is the minimum of the series. */
  lemma ZerothIsMinimum(s: seq<real>, v: real)
    requires IsOrderStatistic(s, 0, v)
    ensures forall i :: 0 <= i < |s| ==> v <= s[i]
  {
    NoneBelowIsMinimum(s, v);
  }

  /** Sorting a copy and reading position k gives the k-th smallest value. */
  lemma SortedCopyIsOrderStatistic(s: seq<real>, k: nat)
    requires k < |s|
    ensures IsOrderStatistic(s, k, SortAscending(s)[k])
  {
    var r := SortAscending(s);
    SortedIndexIsOrderStatistic(r, k);
    OrderStatisticPermutation(r, s, k, r[k]);
  }

  /** The k-th smallest value of `s` (0-based), chosen by counting alone. */
  ghost function OrderStatistic(s: seq<real>, k: nat): (v: real)
    requires k < |s|
    ensures IsOrderStatistic(s, k, v)
  {
    SortedCopyIsOrderStatistic(s, k);
    var v :| IsOrderStatistic(s, k, v);
    v
  }

  /** A later rank never holds a smaller value. */
  lemma OrderStatisticMonotone(s: seq<real>, i: nat, j: nat)
    requires i <= j < |s|
    ensures OrderStatistic(s, i) <= OrderStatistic(s, j)
  {
    var r := SortAscending(s);
    SortedCopyIsOrderStatistic(s, i);
    SortedCopyIsOrderStatistic(s, j);
    OrderStatisticUnique(s, i, r[i], OrderStatistic(s, i));
    OrderStatisticUnique(s, j, r[j], OrderStatistic(s, j));
  }
}
