/** The latency guard: one bucket per width, judged once, and a door it closes once. */
module AdmissionGuard {
  import opened Wrappers
  import opened Percentile

  /** Latencies and the limit are counted in one unit, instants and the width in another. */
  datatype Settings = Settings(limit: int, needed: int, width: int, minimum: int) {
    /** A bucket has a width, and an empty one holds too few samples to be judged. */
    predicate Sound() {
      width > 0 && minimum > 0
    }

    /** How many bad buckets in a row close the door: one at the least. */
    function Needed(): nat {
      if needed < 1 then 1 else needed
    }
  }

  datatype Verdict = Thin | Over | Within

  datatype Record = Record(bucket: int, samples: nat, p95: Option<int>, verdict: Verdict,
                           consecutive: nat, fired: bool)

  datatype Event = Event(bucket: int, count: nat, samples: nat,
                         p50: Option<int>, p95: Option<int>, p99: Option<int>)

  datatype Guard = Guard(buckets: map<int, seq<int>>, next: Option<int>, consecutive: nat,
                         judged: nat, bad: nat, thin: nat, peak: nat,
                         closed: bool, event: Option<Event>, history: seq<Record>)

  const NEW_GUARD := Guard(map[], None, 0, 0, 0, 0, 0, false, None, [])

  /* ---------------- the guard as a value ---------------- */

  function SamplesIn(buckets: map<int, seq<int>>, index: int): seq<int> {
    if index in buckets then buckets[index] else []
  }

  function VerdictOn(c: Settings, latencies: seq<int>): Verdict
    requires c.Sound()
  {
    if |latencies| < c.minimum then Thin
    else if PercentileOf(latencies, 95).value > c.limit then Over
    else Within
  }

  /** The record of a bucket, given the bad ones just before it and whether the door is closed. */
  function RecordOf(c: Settings, index: int, latencies: seq<int>, before: nat, closed: bool): Record
    requires c.Sound()
  {
    var verdict := VerdictOn(c, latencies);
    var consecutive := if verdict.Over? then before + 1 else 0;
    Record(index, |latencies|, PercentileOf(latencies, 95), verdict, consecutive,
           verdict.Over? && consecutive >= c.needed && !closed)
  }

  function EventOf(index: int, count: nat, latencies: seq<int>): Event {
    Event(index, count, |latencies|,
          PercentileOf(latencies, 50), PercentileOf(latencies, 95), PercentileOf(latencies, 99))
  }

  function Filed(g: Guard, index: int, latency: int): Guard {
    g.(buckets := g.buckets[index := SamplesIn(g.buckets, index) + [latency]])
  }

  function Sampled(c: Settings, g: Guard, at: nat, latency: int): Guard
    requires c.Sound()
  {
    Filed(g, at / c.width, latency)
  }

  /** What a record does to the counters, the door and the history. */
  function Counted(g: Guard, r: Record, latencies: seq<int>): Guard {
    Guard(g.buckets, g.next, r.consecutive, g.judged + 1,
          g.bad + (if r.verdict.Over? then 1 else 0), g.thin + (if r.verdict.Thin? then 1 else 0),
          if r.consecutive > g.peak then r.consecutive else g.peak,
          g.closed || r.fired,
          if r.fired then Some(EventOf(r.bucket, r.consecutive, latencies)) else g.event,
          g.history + [r])
  }

  function Judged(c: Settings, g: Guard, index: int): Guard
    requires c.Sound()
  {
    var latencies := SamplesIn(g.buckets, index);
    Counted(g.(buckets := g.buckets - {index}),
            RecordOf(c, index, latencies, g.consecutive, g.closed), latencies)
  }

  function JudgedNext(c: Settings, g: Guard): Guard
    requires c.Sound() && g.next.Some?
  {
    Judged(c, g, g.next.value).(next := Some(g.next.value + 1))
  }

  function JudgedUpTo(c: Settings, g: Guard, last: int): Guard
    requires c.Sound() && g.next.Some?
    decreases last - g.next.value
  {
    if g.next.value > last then g else JudgedUpTo(c, JudgedNext(c, g), last)
  }

  function Passed(c: Settings, g: Guard, now: nat): Guard
    requires c.Sound()
  {
    var last := now / c.width - 1;
    if g.next == None then g.(next := Some(last + 1)) else JudgedUpTo(c, g, last)
  }

  /* ---------------- the guard as the source keeps it ---------------- */

  class AdmissionGuard {
    const settings: Settings
    var buckets: map<int, seq<int>>
    var nextBucket: Option<int>
    var consecutive: nat
    var judged: nat
    var bad: nat
    var thin: nat
    var peakConsecutive: nat
    var closed: bool
    var event: Option<Event>
    var history: seq<Record>

    ghost function Value(): Guard
      reads this
    {
      Guard(buckets, nextBucket, consecutive, judged, bad, thin, peakConsecutive, closed, event, history)
    }

    constructor (settings: Settings)
      ensures this.settings == settings && Value() == NEW_GUARD
    {
      this.settings := settings;
      buckets, nextBucket, history := map[], None, [];
      consecutive, judged, bad, thin, peakConsecutive := 0, 0, 0, 0, 0;
      closed, event := false, None;
    }

    method RecordLatency(completedAt: nat, latency: int)
      requires settings.Sound()
      modifies this`buckets
      ensures Value() == Sampled(settings, old(Value()), completedAt, latency)
    {
      var index := completedAt / settings.width;
      if index !in buckets { buckets := buckets[index := []]; }
      buckets := buckets[index := buckets[index] + [latency]];
    }

    method TakeBucket(index: int) returns (latencies: seq<int>)
      modifies this`buckets
      ensures latencies == SamplesIn(old(buckets), index) && buckets == old(buckets) - {index}
    {
      latencies := SamplesIn(buckets, index);
      buckets := buckets - {index};
    }

    method JudgeBucket(index: int) returns (record: Record)
      requires settings.Sound()
      modifies this
      ensures Value() == Judged(settings, old(Value()), index)
      ensures record == history[|history| - 1]
    {
      var latencies := TakeBucket(index);
      var p95 := PercentileOf(latencies, 95);
      if |latencies| < settings.minimum {
        record := Record(index, |latencies|, p95, Thin, 0, false);
      } else if p95.value > settings.limit {
        record := Record(index, |latencies|, p95, Over, consecutive + 1,
                         consecutive + 1 >= settings.needed && !closed);
      } else {
        record := Record(index, |latencies|, p95, Within, 0, false);
      }
      Count(record, latencies);
    }

    /** The counters, the door if it is time, and the history. */
    method Count(record: Record, latencies: seq<int>)
      requires record.verdict.Over? ==> record.consecutive == consecutive + 1
      requires !record.verdict.Over? ==> record.consecutive == 0 && !record.fired
      modifies this
      ensures Value() == Counted(old(Value()), record, latencies)
    {
      judged := judged + 1;
      match record.verdict {
        case Thin =>
          thin := thin + 1;
          consecutive := 0;
        case Over =>
          bad := bad + 1;
          consecutive := consecutive + 1;
          if consecutive > peakConsecutive { peakConsecutive := consecutive; }
          if record.fired {
            CloseAdmission(record, latencies);
          }
        case Within =>
          consecutive := 0;
      }
      history := history + [record];
    }

    method CloseAdmission(record: Record, latencies: seq<int>)
      modifies this`event, this`closed
      ensures closed && event == Some(EventOf(record.bucket, consecutive, latencies))
    {
      event := Some(EventOf(record.bucket, consecutive, latencies));
      closed := true;
    }

    method JudgeClosedBuckets(now: nat) returns (records: seq<Record>)
      requires settings.Sound()
      modifies this
      ensures Value() == Passed(settings, old(Value()), now)
      ensures history == old(history) + records
    {
      var lastClosed := now / settings.width - 1;
      records := [];
      if nextBucket == None {
        nextBucket := Some(lastClosed + 1);
        return;
      }
      while nextBucket.value <= lastClosed
        invariant nextBucket.Some?
        invariant history == old(history) + records
        invariant JudgedUpTo(settings, Value(), lastClosed) == JudgedUpTo(settings, old(Value()), lastClosed)
        decreases lastClosed - nextBucket.value
      {
        var record := JudgeBucket(nextBucket.value);
        records := records + [record];
        nextBucket := Some(nextBucket.value + 1);
      }
    }
  }
}
