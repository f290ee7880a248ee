/** Picking and counting in a list. */
module Counting {
  import opened Wrappers

  function Filter<T>(s: seq<T>, p: T -> bool): seq<T> {
    if s == [] then [] else Filter(s[..|s| - 1], p) + if p(s[|s| - 1]) then [s[|s| - 1]] else []
  }

  function CountIf<T>(s: seq<T>, p: T -> bool): nat {
    if s == [] then 0 else CountIf(s[..|s| - 1], p) + if p(s[|s| - 1]) then 1 else 0
  }

  lemma AppendCounts<T>(s: seq<T>, x: T, p: T -> bool)
    ensures CountIf(s + [x], p) == CountIf(s, p) + if p(x) then 1 else 0
    ensures Filter(s + [x], p) == Filter(s, p) + if p(x) then [x] else []
  {
    assert (s + [x])[..|s|] == s;
  }

  lemma {:induction false} CountsAddUp<T>(s: seq<T>, t: seq<T>, q: T -> bool)
    ensures CountIf(s + t, q) == CountIf(s, q) + CountIf(t, q)
  {
    if t == [] {
      assert s + t == s;
    } else {
      assert (s + t)[..|s + t| - 1] == s + t[..|t| - 1];
      CountsAddUp(s, t[..|t| - 1], q);
    }
  }

  /** What is picked and what is left share the list out, and every count of it. */
  lemma {:induction false} FilterSplits<T>(s: seq<T>, p: T -> bool, off: T -> bool, q: T -> bool)
    requires forall x <- s :: off(x) == !p(x)
    ensures |Filter(s, p)| + |Filter(s, off)| == |s|
    ensures CountIf(Filter(s, p), q) + CountIf(Filter(s, off), q) == CountIf(s, q)
  {
    if s != [] {
      var front, last := s[..|s| - 1], s[|s| - 1];
      assert forall x <- front :: x in s;
      FilterSplits(front, p, off, q);
      assert off(last) == !p(last);
      FilterStep(s, p, q);
      FilterStep(s, off, q);
    }
  }

  lemma FilterStep<T>(s: seq<T>, p: T -> bool, q: T -> bool)
    requires s != []
    ensures var front, last := s[..|s| - 1], s[|s| - 1];
            && |Filter(s, p)| == |Filter(front, p)| + (if p(last) then 1 else 0)
            && CountIf(Filter(s, p), q) == CountIf(Filter(front, p), q) + (if p(last) && q(last) then 1 else 0)
  {
    var front, last := s[..|s| - 1], s[|s| - 1];
    if p(last) {
      AppendCounts(Filter(front, p), last, q);
    } else {
      assert Filter(s, p) == Filter(front, p);
    }
  }

  lemma {:induction false} CountsAgree<T>(s: seq<T>, p: T -> bool, q: T -> bool)
    requires forall x <- s :: p(x) == q(x)
    ensures CountIf(s, p) == CountIf(s, q)
  {
    if s != [] {
      assert s[|s| - 1] in s;
      CountsAgree(s[..|s| - 1], p, q);
    }
  }

  function Mapped<A, B>(s: seq<A>, f: A -> B): seq<B> {
    if s == [] then [] else Mapped(s[..|s| - 1], f) + [f(s[|s| - 1])]
  }

  lemma MappedAppend<A, B>(s: seq<A>, x: A, f: A -> B)
    ensures Mapped(s + [x], f) == Mapped(s, f) + [f(x)]
  {
    assert (s + [x])[..|s|] == s;
  }

  lemma {:induction false} MappedLength<A, B>(s: seq<A>, f: A -> B)
    ensures |Mapped(s, f)| == |s|
  {
    if s != [] {
      MappedLength(s[..|s| - 1], f);
    }
  }

  /** Picking and then mapping is mapping and then picking. */
  lemma {:induction false} FilterMaps<A, B>(s: seq<A>, f: A -> B, p: A -> bool, q: B -> bool)
    requires forall x :: q(f(x)) == p(x)
    ensures Filter(Mapped(s, f), q) == Mapped(Filter(s, p), f)
  {
    if s != [] {
      var front, x := s[..|s| - 1], s[|s| - 1];
      FilterMaps(front, f, p, q);
      AppendCounts(Mapped(front, f), f(x), q);
      assert q(f(x)) == p(x);
      if p(x) {
        MappedAppend(Filter(front, p), x, f);
      } else {
        assert Filter(s, p) == Filter(front, p);
        assert Filter(Mapped(front, f), q) + [] == Filter(Mapped(front, f), q);
      }
    }
  }

  lemma {:induction false} FilterParts<T>(s: seq<T>, t: seq<T>, p: T -> bool)
    ensures Filter(s + t, p) == Filter(s, p) + Filter(t, p)
  {
    if t == [] {
      assert s + t == s;
    } else {
      assert (s + t)[..|s + t| - 1] == s + t[..|t| - 1];
      FilterParts(s, t[..|t| - 1], p);
    }
  }

  lemma {:induction false} FilterAgree<T>(s: seq<T>, p: T -> bool, q: T -> bool)
    requires forall x <- s :: p(x) == q(x)
    ensures Filter(s, p) == Filter(s, q)
  {
    if s != [] {
      assert s[|s| - 1] in s;
      FilterAgree(s[..|s| - 1], p, q);
    }
  }

  /** Picking twice is picking what meets both conditions. */
  lemma {:induction false} FilterTwice<T>(s: seq<T>, p: T -> bool, q: T -> bool, both: T -> bool)
    requires forall x <- s :: both(x) == (p(x) && q(x))
    ensures Filter(Filter(s, p), q) == Filter(s, both)
  {
    if s != [] {
      var front, x := s[..|s| - 1], s[|s| - 1];
      assert x in s && forall y <- front :: y in s;
      FilterTwice(front, p, q, both);
      if p(x) {
        AppendCounts(Filter(front, p), x, q);
      } else {
        assert Filter(s, p) == Filter(front, p);
        assert Filter(s, both) == Filter(front, both);
      }
    }
  }

  lemma {:induction false} FilterHas<T>(s: seq<T>, p: T -> bool)
    ensures forall x <- Filter(s, p) :: x in s && p(x)
  {
    if s != [] {
      FilterHas(s[..|s| - 1], p);
    }
  }

  lemma {:induction false} FilterNone<T>(s: seq<T>, p: T -> bool)
    requires forall x :: !p(x)
    ensures Filter(s, p) == []
  {
    if s != [] {
      FilterNone(s[..|s| - 1], p);
    }
  }

  lemma {:induction false} FilterEvery<T>(s: seq<T>, p: T -> bool)
    requires forall x :: p(x)
    ensures Filter(s, p) == s
  {
    if s != [] {
      FilterEvery(s[..|s| - 1], p);
    }
  }

  lemma FilterOne<T>(c: T, p: T -> bool)
    ensures Filter([c], p) == if p(c) then [c] else []
  {
    assert [c][..0] == [];
  }

  /* ---------------- what is put and not taken ---------------- */

  /** Nothing from the act at `from` on takes this away. */
  predicate Spared<A, X>(acts: seq<A>, from: nat, x: X, takes: (A, X) -> bool) {
    forall j :: from <= j < |acts| ==> !takes(acts[j], x)
  }

  /** What the first `n` acts put and no later act takes, in the order it was put. */
  function LastingOf<A, X>(acts: seq<A>, n: nat, put: A -> Option<X>, takes: (A, X) -> bool): seq<X>
    requires n <= |acts|
  {
    if n == 0 then []
    else
      var x := put(acts[n - 1]);
      LastingOf(acts, n - 1, put, takes) + if x.Some? && Spared(acts, n, x.value, takes) then [x.value] else []
  }

  /** What the acts put and none of them took afterwards. */
  function Lasting<A, X>(acts: seq<A>, put: A -> Option<X>, takes: (A, X) -> bool): seq<X> {
    LastingOf(acts, |acts|, put, takes)
  }

  function OrNothing<X>(x: Option<X>): seq<X> {
    if x.Some? then [x.value] else []
  }

  lemma {:induction false} LastingOfFront<A, X>(acts: seq<A>, n: nat, put: A -> Option<X>, takes: (A, X) -> bool,
                                                keep: X -> bool)
    requires n < |acts| && forall x :: keep(x) == !takes(acts[|acts| - 1], x)
    ensures LastingOf(acts, n, put, takes) == Filter(LastingOf(acts[..|acts| - 1], n, put, takes), keep)
  {
    if n > 0 {
      var front, last := acts[..|acts| - 1], acts[|acts| - 1];
      LastingOfFront(acts, n - 1, put, takes, keep);
      var before, x := LastingOf(front, n - 1, put, takes), put(front[n - 1]);
      if x.Some? {
        assert Spared(acts, n, x.value, takes) <==> Spared(front, n, x.value, takes) && !takes(last, x.value) by {
          assert forall j :: n <= j < |front| ==> front[j] == acts[j];
        }
        if Spared(front, n, x.value, takes) {
          AppendCounts(before, x.value, keep);
        } else {
          assert before + [] == before;
        }
      } else {
        assert before + [] == before;
      }
    }
  }

  /** One act more: what it takes goes, what it puts comes last. */
  lemma LastingStep<A, X>(acts: seq<A>, put: A -> Option<X>, takes: (A, X) -> bool, keep: X -> bool)
    requires acts != [] && forall x :: keep(x) == !takes(acts[|acts| - 1], x)
    ensures Lasting(acts, put, takes)
         == Filter(Lasting(acts[..|acts| - 1], put, takes), keep) + OrNothing(put(acts[|acts| - 1]))
  {
    LastingOfFront(acts, |acts| - 1, put, takes, keep);
  }
}
