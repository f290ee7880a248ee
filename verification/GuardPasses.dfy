/** When the guard's passes come, and what they reach: which buckets a schedule judges,
    which samples come too late, and what the records and the event report. */
module GuardPasses {
  import opened Wrappers
  import opened Percentile
  import opened AdmissionGuard
  import opened GuardRuns

  /* ---------------- which buckets are judged ---------------- */

  lemma {:induction false} JudgingReaches(c: Settings, g: Guard, last: int)
    requires c.Sound() && g.next.Some?
    ensures var after := JudgedUpTo(c, g, last);
            after.next.Some? && First(after) == First(g)
            && after.next.value == if g.next.value > last then g.next.value else last + 1
    decreases last - g.next.value
  {
    if g.next.value <= last {
      JudgingReaches(c, JudgedNext(c, g), last);
    }
  }

  /** No pass of the schedule went further than this one. */
  predicate Furthest(c: Settings, acts: seq<Act>, j: int)
    requires c.Sound()
  {
    && 0 <= j < |acts| && acts[j].Tick?
    && forall k :: 0 <= k < |acts| && acts[k].Tick? ==> acts[k].now / c.width <= acts[j].now / c.width
  }

  predicate FirstPass(acts: seq<Act>, j: int) {
    0 <= j < |acts| && acts[j].Tick? && forall k :: 0 <= k < j ==> !acts[k].Tick?
  }

  predicate Passes(acts: seq<Act>) {
    exists act <- acts :: act.Tick?
  }

  /** The guard stands at the bucket of the furthest pass, and began at the first pass's. */
  ghost predicate StandsAtThePasses(c: Settings, acts: seq<Act>, g: Guard)
    requires c.Sound()
  {
    && (g.next.Some? <==> Passes(acts))
    && (g.next.Some? ==> exists j :: Furthest(c, acts, j) && g.next.value == acts[j].now / c.width)
    && (g.next.Some? ==> exists j :: FirstPass(acts, j) && First(g) == acts[j].now / c.width)
  }

  lemma SampleLeavesThePasses(c: Settings, acts: seq<Act>, g: Guard, act: Act, g': Guard)
    requires c.Sound() && StandsAtThePasses(c, acts, g) && act.Sample?
    requires g'.next == g.next && g'.history == g.history
    ensures StandsAtThePasses(c, acts + [act], g')
  {
    if g.next.Some? {
      var j :| Furthest(c, acts, j) && g.next.value == acts[j].now / c.width;
      assert Furthest(c, acts + [act], j);
      var i :| FirstPass(acts, i) && First(g) == acts[i].now / c.width;
      assert FirstPass(acts + [act], i);
    }
  }

  lemma PassMoves(c: Settings, acts: seq<Act>, g: Guard, act: Act)
    requires c.Sound() && StandsAtThePasses(c, acts, g) && act.Tick? && Consistent(c, g)
    ensures StandsAtThePasses(c, acts + [act], Passed(c, g, act.now))
  {
    var all, n := acts + [act], act.now / c.width;
    assert all[|acts|] == act && act in all;
    if g.next == None {
      forall k | 0 <= k < |acts| ensures !acts[k].Tick? { assert acts[k] in acts; }
      assert Furthest(c, all, |acts|) && FirstPass(all, |acts|);
    } else {
      JudgingReaches(c, g, n - 1);
      var i :| FirstPass(acts, i) && First(g) == acts[i].now / c.width;
      assert FirstPass(all, i);
      var j :| Furthest(c, acts, j) && g.next.value == acts[j].now / c.width;
      assert Furthest(c, all, if n > g.next.value then |acts| else j);
    }
  }

  lemma {:induction false} GuardStandsAtThePasses(c: Settings, acts: seq<Act>)
    requires c.Sound()
    ensures StandsAtThePasses(c, acts, After(c, acts))
  {
    if acts != [] {
      var front, act := acts[..|acts| - 1], acts[|acts| - 1];
      GuardStandsAtThePasses(c, front);
      AlwaysConsistent(c, front);
      assert acts == front + [act];
      if act.Sample? {
        SampleLeavesThePasses(c, front, After(c, front), act, After(c, acts));
      } else {
        PassMoves(c, front, After(c, front), act);
      }
    }
  }

  /** A bucket is over by this instant. */
  predicate Ended(c: Settings, bucket: int, now: nat) {
    (bucket + 1) * c.width <= now
  }

  lemma EndedIsBehind(c: Settings, bucket: int, now: nat)
    requires c.Sound()
    ensures Ended(c, bucket, now) <==> bucket < now / c.width
  {
    var q, w := now / c.width, c.width;
    assert q * w <= now < (q + 1) * w;
    if bucket < q {
      assert (bucket + 1) * w <= q * w;
    } else {
      assert (bucket + 1) * w >= (q + 1) * w;
    }
  }

  predicate WasJudged(g: Guard, bucket: int) {
    exists r <- g.history :: r.bucket == bucket
  }

  /** Of the buckets from the first pass's on, exactly those are judged that were over by
      the instant of some pass: none still open, and none left out. */
  lemma JudgedOnceEnded(c: Settings, acts: seq<Act>, bucket: int)
    requires c.Sound()
    ensures WasJudged(After(c, acts), bucket)
       <==> && (exists j :: FirstPass(acts, j) && acts[j].now / c.width <= bucket)
            && (exists act <- acts :: act.Tick? && Ended(c, bucket, act.now))
  {
    var g := After(c, acts);
    GuardStandsAtThePasses(c, acts);
    AlwaysConsistent(c, acts);
    JudgedAreInBetween(c, g, bucket);
    if g.next.Some? {
      var i :| FirstPass(acts, i) && First(g) == acts[i].now / c.width;
      var j :| Furthest(c, acts, j) && g.next.value == acts[j].now / c.width;
      assert acts[j] in acts;
      EndedIsBehind(c, bucket, acts[j].now);
      forall k | 0 <= k < |acts| && acts[k].Tick? ensures Ended(c, bucket, acts[k].now) ==> bucket < g.next.value {
        EndedIsBehind(c, bucket, acts[k].now);
      }
      forall k | FirstPass(acts, k) ensures k == i {
      }
    }
  }

  lemma JudgedAreInBetween(c: Settings, g: Guard, bucket: int)
    requires Consistent(c, g)
    ensures WasJudged(g, bucket) <==> g.next.Some? && First(g) <= bucket < g.next.value
  {
    if g.next.Some? && First(g) <= bucket < g.next.value {
      assert g.history[bucket - First(g)] in g.history;
    }
  }

  /** In particular a pass leaves no bucket unjudged that is over by then, the first pass
      apart. */
  lemma APassLeavesNothingBehind(c: Settings, acts: seq<Act>, now: nat, bucket: int)
    requires c.Sound() && After(c, acts).next.Some? && First(After(c, acts)) <= bucket && Ended(c, bucket, now)
    ensures WasJudged(After(c, acts + [Tick(now)]), bucket)
  {
    var g := After(c, acts);
    assert (acts + [Tick(now)])[..|acts|] == acts;
    JudgingReaches(c, g, now / c.width - 1);
    AlwaysConsistent(c, acts + [Tick(now)]);
    JudgedAreInBetween(c, After(c, acts + [Tick(now)]), bucket);
    EndedIsBehind(c, bucket, now);
  }

  /* ---------------- which samples come in time ---------------- */

  /** An earlier pass had gone past the bucket this sample is filed under. */
  predicate TooLate(c: Settings, acts: seq<Act>, j: int, i: int)
    requires c.Sound()
  {
    && 0 <= j < i < |acts| && acts[j].Tick? && acts[i].Sample?
    && Ended(c, acts[i].at / c.width, acts[j].now)
  }

  /** Samples are in time exactly if none comes behind a pass by whose instant its bucket
      was over. */
  lemma {:induction false} InTimeExactly(c: Settings, acts: seq<Act>)
    requires c.Sound()
    ensures InTime(c, acts) <==> forall i, j :: !TooLate(c, acts, j, i)
  {
    if acts != [] {
      var front, act := acts[..|acts| - 1], acts[|acts| - 1];
      InTimeExactly(c, front);
      GuardStandsAtThePasses(c, front);
      forall i, j | i < |front| ensures TooLate(c, acts, j, i) == TooLate(c, front, j, i) {
      }
      if act.Sample? {
        LastIsInTime(c, acts, front, act, After(c, front));
      }
    }
  }

  lemma LastIsInTime(c: Settings, acts: seq<Act>, front: seq<Act>, act: Act, g: Guard)
    requires c.Sound() && acts == front + [act] && act.Sample? && StandsAtThePasses(c, front, g)
    ensures (g.next.Some? ==> act.at / c.width >= g.next.value) <==> forall j :: !TooLate(c, acts, j, |front|)
  {
    var b := act.at / c.width;
    if g.next.Some? {
      var j :| Furthest(c, front, j) && g.next.value == front[j].now / c.width;
      EndedIsBehind(c, b, front[j].now);
      assert acts[j] == front[j] && acts[|front|] == act;
      forall k | TooLate(c, acts, k, |front|) ensures b < g.next.value {
        EndedIsBehind(c, b, front[k].now);
      }
      if b < g.next.value {
        assert TooLate(c, acts, j, |front|);
      }
    } else {
      forall k | 0 <= k < |front| ensures !front[k].Tick? {
        assert front[k] in front;
      }
    }
  }

  /** Clocks that do not run back behind a pass. */
  predicate NothingBeforeAPass(acts: seq<Act>) {
    forall i, j :: 0 <= j < i < |acts| && acts[j].Tick? && acts[i].Sample? ==> acts[j].now <= acts[i].at
  }

  /** So every schedule is in time in which no sample completed before an earlier pass. */
  lemma SamplesComeInTime(c: Settings, acts: seq<Act>)
    requires c.Sound() && NothingBeforeAPass(acts)
    ensures InTime(c, acts)
  {
    InTimeExactly(c, acts);
    forall i, j | 0 <= j < i < |acts| && acts[j].Tick? && acts[i].Sample? ensures !TooLate(c, acts, j, i) {
      EndedIsBehind(c, acts[i].at / c.width, acts[i].at);
    }
  }

  /* ---------------- what is reported ---------------- */

  lemma {:induction false} RecordedAt(c: Settings, first: int, h: seq<Record>, samples: int -> seq<int>, i: nat)
    requires c.Sound() && Recorded(c, first, h, samples) && i < |h|
    ensures h[i] == NextRecord(c, first + i, samples(first + i), h[..i])
  {
    if i < |h| - 1 {
      RecordedAt(c, first, h[..|h| - 1], samples, i);
      assert h[..|h| - 1][..i] == h[..i];
    }
  }

  /** What a record says of the samples of its bucket. */
  ghost predicate Says(c: Settings, r: Record, samples: seq<int>) {
    && r.samples == |samples| && IsPercentile(r.p95, samples, 95)
    && (r.verdict.Thin? <==> |samples| < c.minimum)
    && (r.verdict.Over? <==> |samples| >= c.minimum && CountAtMost(samples, c.limit) < Share(|samples|, 95))
  }

  lemma RecordSays(c: Settings, bucket: int, samples: seq<int>, h: seq<Record>)
    requires c.Sound()
    ensures Says(c, NextRecord(c, bucket, samples, h), samples) && NextRecord(c, bucket, samples, h).bucket == bucket
  {
    OnlyPercentile(PercentileOf(samples, 95), samples, 95);
    BadBySampleCount(c, samples);
  }

  /** A record fires exactly if it ends the first run that is long enough. */
  lemma FiringIsTheFirstRun(c: Settings, h: seq<Record>, r: Record, bucket: int, samples: seq<int>)
    requires c.Sound() && r == NextRecord(c, bucket, samples, h)
    ensures r.consecutive == BadSuffix(h + [r])
    ensures r.fired <==> FirstRunEnds(h + [r], |h|, c.Needed())
  {
    assert (h + [r])[..|h|] == h;
    SuffixIsRun(h + [r], c.Needed());
    LongestIsARun(h, c.Needed());
    forall end | 0 <= end < |h| ensures RunEnds(h + [r], end, c.Needed()) == RunEnds(h, end, c.Needed()) {
      RunsOfAppend(h, r, end, c.Needed());
    }
  }

  lemma RecordAtSays(c: Settings, first: int, h: seq<Record>, samples: int -> seq<int>, i: nat)
    requires c.Sound() && Recorded(c, first, h, samples) && i < |h|
    ensures h[i].bucket == first + i && Says(c, h[i], samples(first + i))
    ensures h[i].consecutive == BadSuffix(h[..i + 1])
    ensures h[i].fired <==> FirstRunEnds(h, i, c.Needed())
  {
    RecordedAt(c, first, h, samples, i);
    RecordSays(c, first + i, samples(first + i), h[..i]);
    FiringIsTheFirstRun(c, h[..i], h[i], first + i, samples(first + i));
    assert h[..i + 1] == h[..i] + [h[i]];
    FirstRunOfFront(h, i, c.Needed());
  }

  /** What the records and the event of a guard are to report of these samples. */
  ghost predicate ReportsAt(c: Settings, g: Guard, samples: int -> seq<int>, i: nat) {
    && (i < |g.history| ==>
          && Says(c, g.history[i], samples(g.history[i].bucket))
          && g.history[i].consecutive == BadSuffix(g.history[..i + 1])
          && (g.history[i].fired <==> FirstRunEnds(g.history, i, c.Needed())))
    && (g.event.Some? ==> Reports(g.event.value, samples(g.event.value.bucket)))
  }

  lemma RefiningReports(c: Settings, g: Guard, samples: int -> seq<int>, i: nat)
    requires c.Sound() && Refines(c, g, samples)
    ensures ReportsAt(c, g, samples, i)
  {
    if i < |g.history| {
      RecordAtSays(c, First(g), g.history, samples, i);
    }
    if g.event.Some? {
      EventReports(c, g.event.value, samples(g.event.value.bucket));
    }
  }

  /** As long as samples come in time, every record says of its bucket what all the
      samples of the bucket say, each percentile and the verdict by counting; it fires
      exactly if it ends the first run long enough, and the event reports its bucket. */
  lemma WhatTheGuardReports(c: Settings, acts: seq<Act>, i: nat)
    requires c.Sound() && InTime(c, acts)
    ensures ReportsAt(c, After(c, acts), Samples(c, acts), i)
  {
    GuardRefinesItsSamples(c, acts);
    RefiningReports(c, After(c, acts), Samples(c, acts), i);
  }

  lemma FirstRunOfFront(h: seq<Record>, i: nat, n: nat)
    requires i < |h|
    ensures FirstRunEnds(h[..i + 1], i, n) <==> FirstRunEnds(h, i, n)
  {
    var front := h[..i + 1];
    forall end | 0 <= end <= i ensures RunEnds(front, end, n) == RunEnds(h, end, n) {
      assert forall k :: 0 <= k <= end ==> front[k] == h[k];
    }
  }

  ghost predicate Reports(e: Event, samples: seq<int>) {
    && e.samples == |samples|
    && IsPercentile(e.p50, samples, 50) && IsPercentile(e.p95, samples, 95) && IsPercentile(e.p99, samples, 99)
  }

  lemma EventReports(c: Settings, e: Event, samples: seq<int>)
    requires e == EventOf(e.bucket, c.Needed(), samples)
    ensures Reports(e, samples)
  {
    OnlyPercentile(e.p50, samples, 50);
    OnlyPercentile(e.p95, samples, 95);
    OnlyPercentile(e.p99, samples, 99);
  }
}
