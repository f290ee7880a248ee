/** A stable sort by an integer key. */
module Sorting {

  ghost predicate SortedBy<T>(key: T -> int, s: seq<T>) {
    forall i, j :: 0 <= i < j < |s| ==> key(s[i]) <= key(s[j])
  }

  /** The element goes behind every element whose key is not greater. */
  function Insert<T>(key: T -> int, s: seq<T>, x: T): seq<T> {
    if s == [] || key(s[|s| - 1]) <= key(x) then s + [x]
    else Insert(key, s[..|s| - 1], x) + [s[|s| - 1]]
  }

  function SortBy<T>(key: T -> int, s: seq<T>): seq<T> {
    if s == [] then [] else Insert(key, SortBy(key, s[..|s| - 1]), s[|s| - 1])
  }

  lemma AppendIsSorted<T>(key: T -> int, s: seq<T>, x: T)
    requires SortedBy(key, s) && forall y <- s :: key(y) <= key(x)
    ensures SortedBy(key, s + [x])
  {
  }

  lemma LastIsGreatest<T>(key: T -> int, s: seq<T>)
    requires SortedBy(key, s) && s != []
    ensures forall y <- s :: key(y) <= key(s[|s| - 1])
  {
  }

  lemma {:induction false} InsertAdds<T>(key: T -> int, s: seq<T>, x: T)
    ensures multiset(Insert(key, s, x)) == multiset(s) + multiset{x}
    ensures forall y <- Insert(key, s, x) :: y in s || y == x
  {
    if s != [] && key(s[|s| - 1]) > key(x) {
      InsertAdds(key, s[..|s| - 1], x);
      assert s == s[..|s| - 1] + [s[|s| - 1]];
    }
  }

  lemma {:induction false} InsertIsSorted<T>(key: T -> int, s: seq<T>, x: T)
    requires SortedBy(key, s)
    ensures SortedBy(key, Insert(key, s, x))
  {
    if s == [] {
      AppendIsSorted(key, s, x);
    } else {
      LastIsGreatest(key, s);
      if key(s[|s| - 1]) <= key(x) {
        AppendIsSorted(key, s, x);
      } else {
        InsertIsSorted(key, s[..|s| - 1], x);
        InsertAdds(key, s[..|s| - 1], x);
        AppendIsSorted(key, Insert(key, s[..|s| - 1], x), s[|s| - 1]);
      }
    }
  }

  lemma {:induction false} SortByIsSorted<T>(key: T -> int, s: seq<T>)
    ensures SortedBy(key, SortBy(key, s))
    ensures multiset(SortBy(key, s)) == multiset(s)
    ensures |SortBy(key, s)| == |s|
  {
    if s != [] {
      SortByIsSorted(key, s[..|s| - 1]);
      InsertIsSorted(key, SortBy(key, s[..|s| - 1]), s[|s| - 1]);
      InsertAdds(key, SortBy(key, s[..|s| - 1]), s[|s| - 1]);
      assert s == s[..|s| - 1] + [s[|s| - 1]];
    }
    assert |multiset(SortBy(key, s))| == |multiset(s)|;
  }

  /** Being stable, the sort leaves alone what is sorted already. */
  lemma {:induction false} SortingSortedChangesNothing<T>(key: T -> int, s: seq<T>)
    requires SortedBy(key, s)
    ensures SortBy(key, s) == s
  {
    if s != [] {
      SortingSortedChangesNothing(key, s[..|s| - 1]);
    }
  }
}
