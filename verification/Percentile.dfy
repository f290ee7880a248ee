/** The index rule both the guard and the load engine read their percentiles by. */
module Percentile {
  import opened Wrappers
  import opened Sorting

  function Identity(x: int): int { x }

  function Sorted(values: seq<int>): seq<int> {
    SortBy(Identity, values)
  }

  /** The position read in a sorted list of n values. */
  function Position(n: nat, which: nat): (i: nat)
    requires n > 0
    ensures i < n
  {
    var index := n * which / 100 - 1;
    if index < 0 then 0 else if index > n - 1 then n - 1 else index
  }

  function PercentileOf(values: seq<int>, which: nat): Option<int> {
    if values == [] then None
    else
      SortByIsSorted(Identity, values);
      Some(Sorted(values)[Position(|values|, which)])
  }

  function CountAtMost(values: seq<int>, limit: int): nat {
    if values == [] then 0
    else CountAtMost(values[..|values| - 1], limit) + if values[|values| - 1] <= limit then 1 else 0
  }

  lemma {:induction false} CountOfAppend(values: seq<int>, more: seq<int>, limit: int)
    ensures CountAtMost(values + more, limit) == CountAtMost(values, limit) + CountAtMost(more, limit)
    decreases |more|
  {
    if more == [] {
      assert values + more == values;
    } else {
      CountOfAppend(values, more[..|more| - 1], limit);
      assert (values + more)[..|values + more| - 1] == values + more[..|more| - 1];
    }
  }

  lemma {:induction false} CountOfInsert(s: seq<int>, x: int, limit: int)
    ensures CountAtMost(Insert(Identity, s, x), limit) == CountAtMost(s, limit) + if x <= limit then 1 else 0
  {
    if s == [] || s[|s| - 1] <= x {
      CountOfAppend(s, [x], limit);
    } else {
      CountOfInsert(s[..|s| - 1], x, limit);
      CountOfAppend(Insert(Identity, s[..|s| - 1], x), [s[|s| - 1]], limit);
    }
  }

  lemma {:induction false} CountOfSorted(values: seq<int>, limit: int)
    ensures CountAtMost(Sorted(values), limit) == CountAtMost(values, limit)
  {
    if values != [] {
      CountOfSorted(values[..|values| - 1], limit);
      CountOfInsert(Sorted(values[..|values| - 1]), values[|values| - 1], limit);
    }
  }

  lemma {:induction false} CountBound(s: seq<int>, limit: int)
    ensures CountAtMost(s, limit) <= |s|
    ensures SortedBy(Identity, s) && s != [] && s[|s| - 1] <= limit ==> CountAtMost(s, limit) == |s|
  {
    if s != [] {
      CountBound(s[..|s| - 1], limit);
    }
  }

  /** In a sorted list the value at a position is over the limit exactly when the
      values at or below the limit do not reach that position. */
  lemma {:induction false} OverByCounting(s: seq<int>, limit: int, i: nat)
    requires SortedBy(Identity, s) && i < |s|
    ensures s[i] > limit <==> CountAtMost(s, limit) <= i
  {
    CountBound(s, limit);
    CountBound(s[..|s| - 1], limit);
    if i < |s| - 1 {
      OverByCounting(s[..|s| - 1], limit, i);
      assert Identity(s[i]) <= Identity(s[|s| - 1]);
    }
  }

  lemma OverAtPosition(values: seq<int>, which: nat, limit: int)
    requires values != []
    ensures PercentileOf(values, which).value > limit
       <==> CountAtMost(values, limit) <= Position(|values|, which)
  {
    SortByIsSorted(Identity, values);
    CountOfSorted(values, limit);
    OverByCounting(Sorted(values), limit, Position(|values|, which));
  }

  /** How many values the share of a percentile asks for: one at the least. */
  function Share(n: nat, which: nat): nat {
    if n * which / 100 < 1 then 1 else n * which / 100
  }

  lemma ShareOfAll(n: nat, which: nat)
    requires which <= 100
    ensures n * which <= n * 100
  {
  }

  lemma Hundredth(m: nat, n: nat)
    requires m <= n * 100
    ensures m / 100 <= n
  {
  }

  lemma PositionOfShare(n: nat, which: nat)
    requires n > 0 && which <= 100
    ensures Position(n, which) + 1 == Share(n, which)
  {
    ShareOfAll(n, which);
    Hundredth(n * which, n);
  }

  /** A percentile needs no sorting to be judged: it is over the limit exactly when
      fewer than that share of the values, and at least fewer than one, lie at or below it. */
  lemma PercentileByCounting(values: seq<int>, which: nat, limit: int)
    requires values != [] && which <= 100
    ensures PercentileOf(values, which).value > limit
       <==> CountAtMost(values, limit) < Share(|values|, which)
  {
    OverAtPosition(values, which, limit);
    PositionOfShare(|values|, which);
  }

  /** What a percentile is, said by counting alone: there is one as soon as there is a
      value, and it is over exactly those limits within which fewer than its share lie. */
  ghost predicate IsPercentile(p: Option<int>, values: seq<int>, which: nat) {
    && (p.None? <==> values == [])
    && (p.Some? ==> forall limit :: p.value > limit <==> CountAtMost(values, limit) < Share(|values|, which))
  }

  /** That is what is computed, and nothing else would do. */
  lemma OnlyPercentile(p: Option<int>, values: seq<int>, which: nat)
    requires which <= 100
    ensures IsPercentile(p, values, which) <==> p == PercentileOf(values, which)
  {
    var q := PercentileOf(values, which);
    if values != [] {
      forall limit ensures q.value > limit <==> CountAtMost(values, limit) < Share(|values|, which) {
        PercentileByCounting(values, which, limit);
      }
      if p.Some? && IsPercentile(p, values, which) {
        assert q.value > p.value <==> CountAtMost(values, p.value) < Share(|values|, which);
        assert p.value > q.value <==> CountAtMost(values, q.value) < Share(|values|, which);
      }
    }
  }

  lemma WithoutOne(values: seq<int>, i: nat, limit: int)
    requires i < |values|
    ensures multiset(values) == multiset(values[..i] + values[i + 1..]) + multiset{values[i]}
    ensures CountAtMost(values, limit)
         == CountAtMost(values[..i] + values[i + 1..], limit) + if values[i] <= limit then 1 else 0
  {
    var before, behind := values[..i], values[i + 1..];
    assert values == before + [values[i]] + behind;
    CountOfAppend(before + [values[i]], behind, limit);
    CountOfAppend(before, [values[i]], limit);
    CountOfAppend(before, behind, limit);
  }

  lemma Cancel(a: multiset<int>, b: multiset<int>, x: int)
    requires a + multiset{x} == b + multiset{x}
    ensures a == b
  {
    assert a == (a + multiset{x}) - multiset{x};
    assert b == (b + multiset{x}) - multiset{x};
  }

  lemma {:induction false} CountByMultiset(values: seq<int>, others: seq<int>, limit: int)
    requires multiset(values) == multiset(others)
    ensures CountAtMost(values, limit) == CountAtMost(others, limit)
    decreases |values|
  {
    assert |multiset(values)| == |values| && |multiset(others)| == |others|;
    if values != [] {
      var last := |values| - 1;
      assert values[last] in multiset(others);
      var i :| 0 <= i < |others| && others[i] == values[last];
      WithoutOne(values, last, limit);
      WithoutOne(others, i, limit);
      var fewer, otherwise := values[..last] + values[last + 1..], others[..i] + others[i + 1..];
      Cancel(multiset(fewer), multiset(otherwise), values[last]);
      CountByMultiset(fewer, otherwise, limit);
    }
  }

  lemma SameVerdict(values: seq<int>, others: seq<int>, which: nat, limit: int)
    requires values != [] && others != [] && multiset(values) == multiset(others)
    ensures PercentileOf(values, which).value > limit <==> PercentileOf(others, which).value > limit
  {
    assert |multiset(values)| == |values| && |multiset(others)| == |others|;
    OverAtPosition(values, which, limit);
    OverAtPosition(others, which, limit);
    CountByMultiset(values, others, limit);
  }

  /** The order in which values arrive never changes a percentile. */
  lemma OrderIsIrrelevant(values: seq<int>, others: seq<int>, which: nat)
    requires multiset(values) == multiset(others)
    ensures |values| == |others| && PercentileOf(values, which) == PercentileOf(others, which)
  {
    assert |multiset(values)| == |values| && |multiset(others)| == |others|;
    if values != [] {
      var p, q := PercentileOf(values, which).value, PercentileOf(others, which).value;
      SameVerdict(values, others, which, p);
      SameVerdict(values, others, which, q);
    }
  }
}
