/** The guard over whole schedules of samples and passes. */
module GuardRuns {
  import opened Wrappers
  import opened Percentile
  import opened AdmissionGuard

  datatype Act = Sample(at: nat, latency: int) | Tick(now: nat)

  function Do(c: Settings, g: Guard, act: Act): Guard
    requires c.Sound()
  {
    match act
    case Sample(at, latency) => Sampled(c, g, at, latency)
    case Tick(now) => Passed(c, g, now)
  }

  function After(c: Settings, acts: seq<Act>): Guard
    requires c.Sound()
  {
    if acts == [] then NEW_GUARD else Do(c, After(c, acts[..|acts| - 1]), acts[|acts| - 1])
  }

  /* ---------------- what a history says ---------------- */

  function BadSuffix(h: seq<Record>): nat {
    if h == [] || !h[|h| - 1].verdict.Over? then 0 else 1 + BadSuffix(h[..|h| - 1])
  }

  function LongestBad(h: seq<Record>): nat {
    if h == [] then 0
    else
      var before := LongestBad(h[..|h| - 1]);
      if BadSuffix(h) > before then BadSuffix(h) else before
  }

  function CountOf(h: seq<Record>, v: Verdict): nat {
    if h == [] then 0 else CountOf(h[..|h| - 1], v) + if h[|h| - 1].verdict == v then 1 else 0
  }

  /** The `n` records that end with this one are all bad. */
  predicate RunEnds(h: seq<Record>, end: int, n: nat) {
    0 <= end < |h| && n <= end + 1 && forall i :: end + 1 - n <= i <= end ==> h[i].verdict.Over?
  }

  predicate FirstRunEnds(h: seq<Record>, end: int, n: nat) {
    RunEnds(h, end, n) && forall earlier :: 0 <= earlier < end ==> !RunEnds(h, earlier, n)
  }

  lemma {:induction false} SuffixIsRun(h: seq<Record>, n: nat)
    requires h != []
    ensures BadSuffix(h) >= n <==> RunEnds(h, |h| - 1, n)
  {
    if n > 0 && h[|h| - 1].verdict.Over? && |h| > 1 {
      var front := h[..|h| - 1];
      SuffixIsRun(front, n - 1);
      assert forall i :: 0 <= i < |front| ==> front[i] == h[i];
      if RunEnds(front, |front| - 1, n - 1) {
        assert RunEnds(h, |h| - 1, n);
      }
    }
  }

  lemma RunsOfAppend(h: seq<Record>, r: Record, end: int, n: nat)
    requires 0 <= end < |h|
    ensures RunEnds(h + [r], end, n) <==> RunEnds(h, end, n)
  {
    assert forall i :: 0 <= i <= end ==> (h + [r])[i] == h[i];
  }

  lemma {:induction false} LongestIsARun(h: seq<Record>, n: nat)
    requires n > 0
    ensures LongestBad(h) >= n <==> exists end :: RunEnds(h, end, n)
  {
    if h != [] {
      var front, r := h[..|h| - 1], h[|h| - 1];
      assert h == front + [r];
      LongestIsARun(front, n);
      SuffixIsRun(h, n);
      forall end | 0 <= end < |front| ensures RunEnds(h, end, n) <==> RunEnds(front, end, n) {
        RunsOfAppend(front, r, end, n);
      }
      if LongestBad(front) >= n {
        var end :| RunEnds(front, end, n);
        assert RunEnds(h, end, n);
      }
      if end :| RunEnds(h, end, n) && end != |h| - 1 {
        assert RunEnds(front, end, n);
      }
    }
  }

  /* ---------------- the counters ---------------- */

  ghost predicate Consistent(c: Settings, g: Guard) {
    && (g.next == None ==> g.history == [])
    && (g.next.Some? ==> forall i :: 0 <= i < |g.history| ==>
          g.history[i].bucket == g.next.value - |g.history| + i)
    && g.judged == |g.history|
    && g.bad == CountOf(g.history, Over) && g.thin == CountOf(g.history, Thin)
    && g.consecutive == BadSuffix(g.history)
    && g.peak == LongestBad(g.history)
    && (g.closed <==> g.peak >= c.Needed())
    && (g.closed <==> g.event.Some?)
    && (g.event.Some? ==> Explains(c, g.history, g.event.value))
  }

  /** The event names the earliest end of a run long enough, and counts exactly that run. */
  ghost predicate Explains(c: Settings, h: seq<Record>, event: Event) {
    && event.count == c.Needed()
    && exists end :: FirstRunEnds(h, end, c.Needed()) && event.bucket == h[end].bucket
  }

  lemma JudgingKeepsEvent(c: Settings, g: Guard)
    requires c.Sound() && g.next.Some? && Consistent(c, g) && g.event.Some?
    ensures JudgedNext(c, g).event == g.event
    ensures Explains(c, JudgedNext(c, g).history, g.event.value)
  {
    var end :| FirstRunEnds(g.history, end, c.Needed()) && g.event.value.bucket == g.history[end].bucket;
    var h := JudgedNext(c, g).history;
    forall e | 0 <= e <= end ensures RunEnds(h, e, c.Needed()) <==> RunEnds(g.history, e, c.Needed()) {
      RunsOfAppend(g.history, h[|g.history|], e, c.Needed());
    }
    assert FirstRunEnds(h, end, c.Needed());
  }

  lemma JudgingFiresOnce(c: Settings, g: Guard)
    requires c.Sound() && g.next.Some? && Consistent(c, g) && !g.closed
    requires JudgedNext(c, g).event.Some?
    ensures var g' := JudgedNext(c, g);
            && FirstRunEnds(g'.history, |g.history|, c.Needed())
            && g'.event.value.bucket == g'.history[|g.history|].bucket
            && g'.event.value.count == c.Needed() == g'.consecutive
  {
    var h := JudgedNext(c, g).history;
    assert h[..|g.history|] == g.history;
    assert BadSuffix(h) == g.consecutive + 1;
    LongestIsARun(g.history, c.Needed());
    SuffixIsRun(h, c.Needed());
    if g.history != [] {
      SuffixIsRun(g.history, c.Needed());
    }
    forall e | 0 <= e < |g.history| ensures !RunEnds(h, e, c.Needed()) {
      RunsOfAppend(g.history, h[|g.history|], e, c.Needed());
    }
  }

  lemma JudgingStaysConsistent(c: Settings, g: Guard)
    requires c.Sound() && g.next.Some? && Consistent(c, g)
    ensures Consistent(c, JudgedNext(c, g))
  {
    var g' := JudgedNext(c, g);
    assert g'.history[..|g.history|] == g.history;
    if g.closed {
      JudgingKeepsEvent(c, g);
    } else if g'.event.Some? {
      JudgingFiresOnce(c, g);
    }
  }

  lemma {:induction false} PassingStaysConsistent(c: Settings, g: Guard, last: int)
    requires c.Sound() && g.next.Some? && Consistent(c, g)
    ensures Consistent(c, JudgedUpTo(c, g, last))
    ensures g.event.Some? ==> JudgedUpTo(c, g, last).event == g.event
    decreases last - g.next.value
  {
    if g.next.value <= last {
      JudgingStaysConsistent(c, g);
      if g.event.Some? {
        JudgingKeepsEvent(c, g);
      }
      PassingStaysConsistent(c, JudgedNext(c, g), last);
    }
  }

  lemma {:induction false} AlwaysConsistent(c: Settings, acts: seq<Act>)
    requires c.Sound()
    ensures Consistent(c, After(c, acts))
  {
    if acts != [] {
      AlwaysConsistent(c, acts[..|acts| - 1]);
      var g, act := After(c, acts[..|acts| - 1]), acts[|acts| - 1];
      if act.Tick? && g.next.Some? {
        PassingStaysConsistent(c, g, act.now / c.width - 1);
      }
    }
  }

  /** For every schedule of samples and passes: the history covers consecutive buckets,
      one record each; the count is its bad suffix and the peak its longest bad run. */
  lemma HistoryIsGapless(c: Settings, acts: seq<Act>)
    requires c.Sound()
    ensures var g := After(c, acts);
            && (forall i :: 0 < i < |g.history| ==> g.history[i].bucket == g.history[i - 1].bucket + 1)
            && (g.history != [] ==> g.next == Some(g.history[|g.history| - 1].bucket + 1))
            && g.consecutive == BadSuffix(g.history) && g.peak == LongestBad(g.history)
            && g.judged == |g.history| && g.bad == CountOf(g.history, Over) && g.thin == CountOf(g.history, Thin)
  {
    AlwaysConsistent(c, acts);
  }

  /** The door is closed exactly when some `needed` judged buckets in a row were all
      bad, and the event names the earliest end of such a run. */
  lemma DoorClosesOnTheFirstRun(c: Settings, acts: seq<Act>)
    requires c.Sound()
    ensures var g := After(c, acts);
            && (g.closed <==> exists end :: RunEnds(g.history, end, c.Needed()))
            && (g.closed <==> g.event.Some?)
            && (g.closed ==> Explains(c, g.history, g.event.value))
  {
    AlwaysConsistent(c, acts);
    LongestIsARun(After(c, acts).history, c.Needed());
  }

  lemma ClosedStaysClosed(c: Settings, g: Guard, act: Act)
    requires c.Sound() && Consistent(c, g) && g.closed
    ensures Do(c, g, act).closed && Do(c, g, act).event == g.event
  {
    if act.Tick? && g.next.Some? {
      PassingStaysConsistent(c, g, act.now / c.width - 1);
    }
  }

  /** Once closed, closed for good, and the event never changes. */
  lemma {:induction false} EventNeverChanges(c: Settings, acts: seq<Act>, more: seq<Act>)
    requires c.Sound() && After(c, acts).closed
    ensures After(c, acts + more).closed && After(c, acts + more).event == After(c, acts).event
    decreases |more|
  {
    if more == [] {
      assert acts + more == acts;
    } else {
      var front := acts + more[..|more| - 1];
      EventNeverChanges(c, acts, more[..|more| - 1]);
      assert (acts + more)[..|acts + more| - 1] == front;
      AlwaysConsistent(c, front);
      ClosedStaysClosed(c, After(c, front), more[|more| - 1]);
    }
  }

  /* ---------------- the history is a statement about the samples ---------------- */

  function SamplesOf(c: Settings, acts: seq<Act>, bucket: int): seq<int>
    requires c.Sound()
  {
    if acts == [] then []
    else
      var act := acts[|acts| - 1];
      var before := SamplesOf(c, acts[..|acts| - 1], bucket);
      if act.Sample? && act.at / c.width == bucket then before + [act.latency] else before
  }

  /** Every sample arrives before its bucket is judged. */
  predicate InTime(c: Settings, acts: seq<Act>)
    requires c.Sound()
  {
    acts == [] ||
    var front, act := acts[..|acts| - 1], acts[|acts| - 1];
    InTime(c, front) &&
    (act.Sample? && After(c, front).next.Some? ==> act.at / c.width >= After(c, front).next.value)
  }

  /** The record a bucket must have, given the records before it. */
  function NextRecord(c: Settings, bucket: int, latencies: seq<int>, h: seq<Record>): Record
    requires c.Sound()
  {
    RecordOf(c, bucket, latencies, BadSuffix(h), LongestBad(h) >= c.Needed())
  }

  /** The history of buckets judged from `first` on, each on all of its samples. */
  predicate Recorded(c: Settings, first: int, h: seq<Record>, samples: int -> seq<int>)
    requires c.Sound()
  {
    h == [] ||
    var front := h[..|h| - 1];
    && Recorded(c, first, front, samples)
    && h[|h| - 1] == NextRecord(c, first + |front|, samples(first + |front|), front)
  }

  /** The two name the same samples for the bucket, in whatever order. */
  predicate Alike(samples: int -> seq<int>, others: int -> seq<int>, bucket: int) {
    multiset(samples(bucket)) == multiset(others(bucket))
  }

  lemma {:induction false} SameSamplesSameHistory(c: Settings, first: int, h: seq<Record>,
                                                  samples: int -> seq<int>, others: int -> seq<int>)
    requires c.Sound() && Recorded(c, first, h, samples)
    requires forall b :: first <= b < first + |h| ==> Alike(samples, others, b)
    ensures Recorded(c, first, h, others)
  {
    if h != [] {
      var front, b := h[..|h| - 1], first + |h| - 1;
      SameSamplesSameHistory(c, first, front, samples, others);
      assert Alike(samples, others, b);
      SameRecord(c, b, samples(b), others(b), front);
    }
  }

  lemma {:induction false} RecordedOnce(c: Settings, first: int, h: seq<Record>, k: seq<Record>, samples: int -> seq<int>)
    requires c.Sound() && |h| == |k| && Recorded(c, first, h, samples) && Recorded(c, first, k, samples)
    ensures h == k
  {
    if h != [] {
      RecordedOnce(c, first, h[..|h| - 1], k[..|k| - 1], samples);
    }
  }

  lemma SameRecord(c: Settings, bucket: int, latencies: seq<int>, others: seq<int>, h: seq<Record>)
    requires c.Sound() && multiset(latencies) == multiset(others)
    ensures NextRecord(c, bucket, latencies, h) == NextRecord(c, bucket, others, h)
  {
    OrderIsIrrelevant(latencies, others, 95);
    assert |latencies| == |multiset(latencies)| && |others| == |multiset(others)|;
  }

  function First(g: Guard): int {
    if g.next.Some? then g.next.value - |g.history| else 0
  }

  /** No bucket is judged yet, or this one is not among the judged. */
  predicate Unjudged(g: Guard, bucket: int) {
    g.next == None || bucket < First(g) || bucket >= g.next.value
  }

  ghost predicate Stores(g: Guard, samples: int -> seq<int>) {
    forall b :: Unjudged(g, b) ==> SamplesIn(g.buckets, b) == samples(b)
  }

  ghost predicate EventFits(c: Settings, g: Guard, samples: int -> seq<int>) {
    g.event.Some? ==>
      g.event.value == EventOf(g.event.value.bucket, c.Needed(), samples(g.event.value.bucket))
  }

  /** The guard as the samples alone would have it: judged buckets in the history, and
      the rest still stored. */
  ghost predicate Refines(c: Settings, g: Guard, samples: int -> seq<int>)
    requires c.Sound()
  {
    && Consistent(c, g)
    && Stores(g, samples)
    && Recorded(c, First(g), g.history, samples)
    && EventFits(c, g, samples)
  }

  lemma JudgingStores(c: Settings, g: Guard, samples: int -> seq<int>)
    requires c.Sound() && g.next.Some? && Stores(g, samples)
    ensures Stores(JudgedNext(c, g), samples)
  {
    var g' := JudgedNext(c, g);
    forall b | Unjudged(g', b) ensures SamplesIn(g'.buckets, b) == samples(b) {
      assert Unjudged(g, b) && b != g.next.value;
    }
  }

  lemma JudgingExtends(c: Settings, g: Guard, samples: int -> seq<int>)
    requires c.Sound() && g.next.Some? && Consistent(c, g)
    requires Recorded(c, First(g), g.history, samples)
    requires SamplesIn(g.buckets, g.next.value) == samples(g.next.value)
    ensures Recorded(c, First(JudgedNext(c, g)), JudgedNext(c, g).history, samples)
  {
    assert JudgedNext(c, g).history[..|g.history|] == g.history;
  }

  lemma JudgingFits(c: Settings, g: Guard, samples: int -> seq<int>)
    requires c.Sound() && g.next.Some? && Consistent(c, g) && EventFits(c, g, samples)
    requires SamplesIn(g.buckets, g.next.value) == samples(g.next.value)
    ensures EventFits(c, JudgedNext(c, g), samples)
  {
    if g.closed {
      JudgingKeepsEvent(c, g);
    } else if JudgedNext(c, g).event.Some? {
      JudgingFiresOnce(c, g);
    }
  }

  lemma JudgingRefines(c: Settings, g: Guard, samples: int -> seq<int>)
    requires c.Sound() && g.next.Some? && Refines(c, g, samples)
    ensures Refines(c, JudgedNext(c, g), samples)
  {
    assert SamplesIn(g.buckets, g.next.value) == samples(g.next.value) by {
      assert Unjudged(g, g.next.value);
    }
    JudgingStores(c, g, samples);
    JudgingExtends(c, g, samples);
    JudgingFits(c, g, samples);
    JudgingStaysConsistent(c, g);
  }

  lemma {:induction false} PassingRefines(c: Settings, g: Guard, last: int, samples: int -> seq<int>)
    requires c.Sound() && g.next.Some? && Refines(c, g, samples)
    ensures Refines(c, JudgedUpTo(c, g, last), samples)
    decreases last - g.next.value
  {
    if g.next.value <= last {
      JudgingRefines(c, g, samples);
      PassingRefines(c, JudgedNext(c, g), last, samples);
    }
  }

  /** The samples of one bucket, and one more. */
  predicate OneMoreSample(index: int, latency: int, before: int -> seq<int>, after: int -> seq<int>, b: int) {
    after(b) == if b == index then before(b) + [latency] else before(b)
  }

  lemma FilingStores(g: Guard, index: int, latency: int, samples: int -> seq<int>, more: int -> seq<int>)
    requires Stores(g, samples) && forall b :: OneMoreSample(index, latency, samples, more, b)
    ensures Stores(Filed(g, index, latency), more)
  {
    var g' := Filed(g, index, latency);
    forall b | Unjudged(g', b) ensures SamplesIn(g'.buckets, b) == more(b) {
      assert Unjudged(g, b) && OneMoreSample(index, latency, samples, more, b);
    }
  }

  lemma JudgedBucketOfEvent(c: Settings, g: Guard)
    requires Consistent(c, g) && g.event.Some?
    ensures !Unjudged(g, g.event.value.bucket)
  {
  }

  lemma FilingKeepsHistory(c: Settings, g: Guard, index: int, latency: int,
                           samples: int -> seq<int>, more: int -> seq<int>)
    requires c.Sound() && Refines(c, g, samples)
    requires g.next.Some? ==> index >= g.next.value
    requires forall b :: OneMoreSample(index, latency, samples, more, b)
    ensures Recorded(c, First(g), g.history, more)
    ensures EventFits(c, g, more)
  {
    forall b | First(g) <= b < First(g) + |g.history| ensures Alike(samples, more, b) {
      assert OneMoreSample(index, latency, samples, more, b);
    }
    SameSamplesSameHistory(c, First(g), g.history, samples, more);
    if g.event.Some? {
      JudgedBucketOfEvent(c, g);
      assert OneMoreSample(index, latency, samples, more, g.event.value.bucket);
    }
  }

  lemma FilingStaysConsistent(c: Settings, g: Guard, index: int, latency: int)
    requires Consistent(c, g)
    ensures Consistent(c, Filed(g, index, latency))
  {
  }

  lemma FilingRefines(c: Settings, g: Guard, index: int, latency: int,
                      samples: int -> seq<int>, more: int -> seq<int>)
    requires c.Sound() && Refines(c, g, samples)
    requires g.next.Some? ==> index >= g.next.value
    requires forall b :: OneMoreSample(index, latency, samples, more, b)
    ensures Refines(c, Filed(g, index, latency), more)
  {
    FilingStores(g, index, latency, samples, more);
    FilingKeepsHistory(c, g, index, latency, samples, more);
    FilingStaysConsistent(c, g, index, latency);
  }

  function Samples(c: Settings, acts: seq<Act>): int -> seq<int>
    requires c.Sound()
  {
    b => SamplesOf(c, acts, b)
  }

  lemma TickRefines(c: Settings, g: Guard, last: int, samples: int -> seq<int>)
    requires c.Sound() && Refines(c, g, samples)
    ensures Refines(c, if g.next == None then g.(next := Some(last + 1)) else JudgedUpTo(c, g, last), samples)
  {
    if g.next.Some? {
      PassingRefines(c, g, last, samples);
    } else {
      StartRefines(c, g, last + 1, samples);
    }
  }

  lemma StartRefines(c: Settings, g: Guard, first: int, samples: int -> seq<int>)
    requires c.Sound() && Refines(c, g, samples) && g.next == None
    ensures Refines(c, g.(next := Some(first)), samples)
  {
    forall b ensures SamplesIn(g.buckets, b) == samples(b) {
      assert Unjudged(g, b);
    }
  }

  lemma SamplesGrow(c: Settings, acts: seq<Act>, front: seq<Act>, act: Act, index: int, latency: int)
    requires c.Sound() && acts != [] && front == acts[..|acts| - 1] && act == acts[|acts| - 1]
    requires act.Sample? && act.at / c.width == index && act.latency == latency
    ensures forall b :: OneMoreSample(index, latency, Samples(c, front), Samples(c, acts), b)
  {
  }

  lemma SamplingRefines(c: Settings, acts: seq<Act>, front: seq<Act>, act: Act, g: Guard)
    requires c.Sound() && acts != [] && front == acts[..|acts| - 1] && act == acts[|acts| - 1] && act.Sample?
    requires Refines(c, g, Samples(c, front)) && (g.next.Some? ==> act.at / c.width >= g.next.value)
    ensures Refines(c, Sampled(c, g, act.at, act.latency), Samples(c, acts))
  {
    SamplesGrow(c, acts, front, act, act.at / c.width, act.latency);
    FilingRefines(c, g, act.at / c.width, act.latency, Samples(c, front), Samples(c, acts));
  }

  /** As long as samples come in time, the guard's state says nothing but what all the
      samples of each bucket say. */
  lemma {:induction false} GuardRefinesItsSamples(c: Settings, acts: seq<Act>)
    requires c.Sound() && InTime(c, acts)
    ensures Refines(c, After(c, acts), Samples(c, acts))
  {
    if acts != [] {
      var front, act := acts[..|acts| - 1], acts[|acts| - 1];
      GuardRefinesItsSamples(c, front);
      if act.Sample? {
        SamplingRefines(c, acts, front, act, After(c, front));
      } else {
        TickRefines(c, After(c, front), act.now / c.width - 1, Samples(c, front));
        SameRefinement(c, After(c, acts), Samples(c, front), Samples(c, acts));
      }
    }
  }

  lemma SameRefinement(c: Settings, g: Guard, samples: int -> seq<int>, others: int -> seq<int>)
    requires c.Sound() && Refines(c, g, samples)
    requires forall b :: samples(b) == others(b)
    ensures Refines(c, g, others)
  {
    SameSamplesSameHistory(c, First(g), g.history, samples, others);
  }

  lemma SameHistorySameGuard(c: Settings, g: Guard, h: Guard)
    requires Consistent(c, g) && Consistent(c, h)
    requires g.history == h.history && g.next == h.next && g.event == h.event
    ensures g == h.(buckets := g.buckets)
  {
  }

  lemma SameHistories(c: Settings, first: int, samples: int -> seq<int>, others: int -> seq<int>,
                      mine: seq<Record>, theirs: seq<Record>)
    requires c.Sound() && |mine| == |theirs|
    requires Recorded(c, first, mine, samples) && Recorded(c, first, theirs, others)
    requires forall i :: 0 <= i < |mine| ==> mine[i].bucket == first + i
    requires forall r <- mine :: Alike(samples, others, r.bucket)
    ensures mine == theirs
  {
    forall b | first <= b < first + |mine| ensures Alike(samples, others, b) {
      assert mine[b - first] in mine;
    }
    SameSamplesSameHistory(c, first, mine, samples, others);
    RecordedOnce(c, first, mine, theirs, others);
  }

  lemma SameSamplesSameGuard(c: Settings, g: Guard, h: Guard, samples: int -> seq<int>, others: int -> seq<int>)
    requires c.Sound() && Refines(c, g, samples) && Refines(c, h, others)
    requires g.next == h.next && |g.history| == |h.history|
    requires forall r <- g.history :: Alike(samples, others, r.bucket)
    ensures g == h.(buckets := g.buckets)
  {
    SameHistories(c, First(g), samples, others, g.history, h.history);
    SameEvents(c, g, h, samples, others);
    SameHistorySameGuard(c, g, h);
  }

  lemma SameEvents(c: Settings, g: Guard, h: Guard, samples: int -> seq<int>, others: int -> seq<int>)
    requires Consistent(c, g) && Consistent(c, h) && g.history == h.history
    requires EventFits(c, g, samples) && EventFits(c, h, others)
    requires forall r <- g.history :: Alike(samples, others, r.bucket)
    ensures g.event == h.event
  {
    if g.event.Some? {
      SameEvent(c, g, h);
      EventsAgree(c, g, h, samples, others);
    }
  }

  /** When the passes happen does not matter. Two schedules that judged the same
      buckets and brought each of them the same samples in time, in whatever order,
      leave the same history, the same counters, the same door and the same event. */
  lemma TimingIsIrrelevant(c: Settings, acts: seq<Act>, others: seq<Act>)
    requires c.Sound() && InTime(c, acts) && InTime(c, others)
    requires After(c, acts).next == After(c, others).next
    requires |After(c, acts).history| == |After(c, others).history|
    requires forall r <- After(c, acts).history ::
               Alike(Samples(c, acts), Samples(c, others), r.bucket)
    ensures var g, h := After(c, acts), After(c, others);
            g == h.(buckets := g.buckets)
  {
    GuardRefinesItsSamples(c, acts);
    GuardRefinesItsSamples(c, others);
    SameSamplesSameGuard(c, After(c, acts), After(c, others), Samples(c, acts), Samples(c, others));
  }

  lemma EventsAgree(c: Settings, g: Guard, h: Guard, samples: int -> seq<int>, others: int -> seq<int>)
    requires EventFits(c, g, samples) && EventFits(c, h, others)
    requires g.event.Some? && h.event.Some? && g.event.value.bucket == h.event.value.bucket
    requires Alike(samples, others, g.event.value.bucket)
    ensures g.event == h.event
  {
    var b := g.event.value.bucket;
    OrderIsIrrelevant(samples(b), others(b), 50);
    OrderIsIrrelevant(samples(b), others(b), 95);
    OrderIsIrrelevant(samples(b), others(b), 99);
  }

  lemma SameEvent(c: Settings, g: Guard, h: Guard)
    requires Consistent(c, g) && Consistent(c, h) && g.history == h.history && g.event.Some?
    ensures h.event.Some? && h.event.value.bucket == g.event.value.bucket
    ensures exists r <- g.history :: r.bucket == g.event.value.bucket
  {
    var i :| FirstRunEnds(g.history, i, c.Needed()) && g.event.value.bucket == g.history[i].bucket;
    var j :| FirstRunEnds(h.history, j, c.Needed()) && h.event.value.bucket == h.history[j].bucket;
    assert i == j;
    assert g.history[i] in g.history;
  }

  /* ---------------- samples that come too late ---------------- */

  /** The two guards differ at most in what one bucket stores. */
  ghost predicate SameBut(g: Guard, h: Guard, bucket: int) {
    && g == h.(buckets := g.buckets)
    && forall b :: b != bucket ==> SamplesIn(g.buckets, b) == SamplesIn(h.buckets, b)
  }

  lemma {:induction false} PassingIgnoresTheLate(c: Settings, g: Guard, h: Guard, bucket: int, last: int)
    requires c.Sound() && g.next.Some? && bucket < g.next.value && SameBut(g, h, bucket)
    ensures var g', h' := JudgedUpTo(c, g, last), JudgedUpTo(c, h, last);
            && SameBut(g', h', bucket) && g'.next.Some? && bucket < g'.next.value
            && SamplesIn(g'.buckets, bucket) == SamplesIn(g.buckets, bucket)
    decreases last - g.next.value
  {
    if g.next.value <= last {
      var g', h' := JudgedNext(c, g), JudgedNext(c, h);
      assert SamplesIn(g.buckets, g.next.value) == SamplesIn(h.buckets, g.next.value);
      forall b | b != bucket ensures SamplesIn(g'.buckets, b) == SamplesIn(h'.buckets, b) {
        assert SamplesIn(g.buckets, b) == SamplesIn(h.buckets, b);
      }
      PassingIgnoresTheLate(c, JudgedNext(c, g), JudgedNext(c, h), bucket, last);
    }
  }

  function AllDone(c: Settings, g: Guard, acts: seq<Act>): Guard
    requires c.Sound()
  {
    if acts == [] then g else Do(c, AllDone(c, g, acts[..|acts| - 1]), acts[|acts| - 1])
  }

  lemma DoingIgnoresTheLate(c: Settings, g: Guard, h: Guard, bucket: int, latency: int, act: Act)
    requires c.Sound() && g.next.Some? && bucket < g.next.value && SameBut(g, h, bucket)
    requires latency in SamplesIn(g.buckets, bucket)
    ensures var g', h' := Do(c, g, act), Do(c, h, act);
            && SameBut(g', h', bucket) && g'.next.Some? && bucket < g'.next.value
            && latency in SamplesIn(g'.buckets, bucket)
  {
    match act
    case Tick(now) => PassingIgnoresTheLate(c, g, h, bucket, now / c.width - 1);
    case Sample(at, more) => FilingIgnoresTheLate(g, h, bucket, at / c.width, more);
  }

  lemma FilingIgnoresTheLate(g: Guard, h: Guard, bucket: int, index: int, latency: int)
    requires SameBut(g, h, bucket)
    ensures SameBut(Filed(g, index, latency), Filed(h, index, latency), bucket)
    ensures forall x <- SamplesIn(g.buckets, bucket) :: x in SamplesIn(Filed(g, index, latency).buckets, bucket)
  {
    forall b | b != bucket
      ensures SamplesIn(Filed(g, index, latency).buckets, b) == SamplesIn(Filed(h, index, latency).buckets, b)
    {
      assert SamplesIn(g.buckets, b) == SamplesIn(h.buckets, b);
    }
  }

  /** A sample filed under a bucket the guard has gone past stays stored and never
      alters anything else, whatever happens afterwards. */
  lemma {:induction false} LateSampleChangesNoVerdict(c: Settings, g: Guard, at: nat, latency: int, acts: seq<Act>)
    requires c.Sound() && g.next.Some? && at / c.width < g.next.value
    ensures var with, without := AllDone(c, Sampled(c, g, at, latency), acts), AllDone(c, g, acts);
            && SameBut(with, without, at / c.width)
            && with.next.Some? && at / c.width < with.next.value
            && latency in SamplesIn(with.buckets, at / c.width)
  {
    if acts != [] {
      var front, act := acts[..|acts| - 1], acts[|acts| - 1];
      LateSampleChangesNoVerdict(c, g, at, latency, front);
      var with, without := AllDone(c, Sampled(c, g, at, latency), front), AllDone(c, g, front);
      DoingIgnoresTheLate(c, with, without, at / c.width, latency, act);
    }
  }

  /** What makes a bucket bad, said without sorting it. */
  lemma BadBySampleCount(c: Settings, latencies: seq<int>)
    requires c.Sound()
    ensures VerdictOn(c, latencies) == Over <==>
              && |latencies| >= c.minimum
              && CountAtMost(latencies, c.limit) < Share(|latencies|, 95)
  {
    if |latencies| >= c.minimum {
      PercentileByCounting(latencies, 95, c.limit);
    }
  }
}
