/** What the engine's accounts say, told from the calls alone: which calls a window
    reports, what it reports of them, and what waits for the sampler. */
module LoadWindows {
  import opened Wrappers
  import opened Counting
  import opened Percentile
  import opened Sending
  import opened LoadEngine

  function RecordedBy(act: Act): Option<Row> {
    if act.Record? then Some(act.row) else None
  }

  predicate ClosesOn(act: Act, row: Row) {
    act.Close? && act.phase == row.phase
  }

  /** The calls recorded since the last window of their phase closed, in order. */
  function Untaken(acts: seq<Act>): seq<Row> {
    Lasting(acts, RecordedBy, ClosesOn)
  }

  lemma {:induction false} UntakenWait(acts: seq<Act>)
    ensures Run(acts).windowCalls == Untaken(acts)
  {
    if acts != [] {
      var front, act := acts[..|acts| - 1], acts[|acts| - 1];
      var keep := (row: Row) => !ClosesOn(act, row);
      UntakenWait(front);
      LastingStep(acts, RecordedBy, ClosesOn, keep);
      if act.Close? {
        FilterAgree(Untaken(front), keep, (r: Row) => r.phase != act.phase);
      } else {
        FilterEvery(Untaken(front), keep);
      }
    }
  }

  function OfThePhase(phase: string): Row -> bool {
    (r: Row) => r.phase == phase
  }

  function Answered(limit: int): Row -> bool {
    (r: Row) => r.latency <= limit
  }

  /** The figure is a percentile of the calls' latencies, said by counting the calls that
      were answered within a limit. */
  ghost predicate LatencyShare(p: Option<int>, rows: seq<Row>, which: nat) {
    && (p.None? <==> rows == [])
    && (p.Some? ==> forall limit :: p.value > limit <==> CountIf(rows, Answered(limit)) < Share(|rows|, which))
  }

  lemma {:induction false} LatenciesCount(rows: seq<Row>, limit: int)
    ensures CountAtMost(Latencies(rows), limit) == CountIf(rows, Answered(limit))
  {
    if rows != [] {
      var front, last := rows[..|rows| - 1], rows[|rows| - 1];
      LatenciesCount(front, limit);
      assert Latencies(rows)[..|rows| - 1] == Latencies(front);
    }
  }

  lemma PercentileOfLatencies(rows: seq<Row>, which: nat)
    requires which <= 100
    ensures LatencyShare(PercentileOf(Latencies(rows), which), rows, which)
  {
    var p := PercentileOf(Latencies(rows), which);
    OnlyPercentile(p, Latencies(rows), which);
    if rows != [] {
      forall limit ensures p.value > limit <==> CountIf(rows, Answered(limit)) < Share(|rows|, which) {
        LatenciesCount(rows, limit);
        assert p.value > limit <==> CountAtMost(Latencies(rows), limit) < Share(|rows|, which);
      }
    }
  }

  /** What a window says of the calls it took. */
  ghost predicate Reports(w: Window, rows: seq<Row>) {
    && w.completed == |rows|
    && w.responses == CountIf(rows, Responded)
    && w.errorsTransport == CountIf(rows, CountsTransport)
    && w.errorsApp == CountIf(rows, CountsApp)
    && w.errorsHttp == CountIf(rows, CountsHttp)
    && LatencyShare(w.p50, rows, 50) && LatencyShare(w.p95, rows, 95) && LatencyShare(w.p99, rows, 99)
  }

  lemma WindowReports(rows: seq<Row>, phase: string, declared: nat, offered: nat)
    ensures Reports(WindowOf(rows, phase, declared, offered), rows)
  {
    PercentileOfLatencies(rows, 50);
    PercentileOfLatencies(rows, 95);
    PercentileOfLatencies(rows, 99);
  }

  /** On every run the window that closes reports exactly the calls of its phase recorded
      since the last one of it closed, with their percentiles and errors by counting, and
      keeps every earlier window. */
  lemma WhatAWindowReports(acts: seq<Act>, phase: string, declared: nat, offered: nat)
    ensures var windows := Run(acts + [Close(phase, declared, offered)]).windows;
            && |windows| == |Run(acts).windows| + 1 && windows[..|windows| - 1] == Run(acts).windows
            && var w := windows[|windows| - 1];
               && Reports(w, Filter(Untaken(acts), OfThePhase(phase)))
               && w.phase == phase && w.declared == declared && w.offered == offered
               && (w.truncated <==> offered != declared && offered <= declared)
  {
    var rows := Filter(Untaken(acts), OfThePhase(phase));
    assert (acts + [Close(phase, declared, offered)])[..|acts|] == acts;
    UntakenWait(acts);
    FilterAgree(Untaken(acts), OfThePhase(phase), (r: Row) => r.phase == phase);
    WindowReports(rows, phase, declared, offered);
  }

  /* ---------------- counters and intervals ---------------- */

  predicate Samples(act: Act, row: Row) {
    act.Sample?
  }

  /** The calls recorded since the sampler last looked. */
  function Unsampled(acts: seq<Act>): seq<Row> {
    Lasting(acts, RecordedBy, Samples)
  }

  lemma OneMoreAct(acts: seq<Act>)
    requires acts != []
    ensures var front, act := acts[..|acts| - 1], acts[|acts| - 1];
            Unsampled(acts) == (if act.Sample? then [] else Unsampled(front)) + OrNothing(RecordedBy(act))
  {
    var front, act := acts[..|acts| - 1], acts[|acts| - 1];
    var keep := (row: Row) => !Samples(act, row);
    LastingStep(acts, RecordedBy, Samples, keep);
    if act.Sample? {
      FilterNone(Unsampled(front), keep);
    } else {
      FilterEvery(Unsampled(front), keep);
    }
  }

  function Latency(r: Row): int {
    r.latency
  }

  function Lateness(r: Row): int {
    r.lateness
  }

  lemma MappedMaybe(before: seq<Row>, x: Option<Row>, f: Row -> int)
    ensures Mapped(before + OrNothing(x), f) == Mapped(before, f) + if x.Some? then [f(x.value)] else []
  {
    if x.Some? {
      MappedAppend(before, x.value, f);
    } else {
      assert before + [] == before;
    }
  }

  /** The next interval has the latencies and the latenesses of exactly those. */
  lemma {:induction false} WhatTheSamplerTakes(acts: seq<Act>)
    ensures Run(acts).lat == Mapped(Unsampled(acts), Latency) && Run(acts).late == Mapped(Unsampled(acts), Lateness)
  {
    if acts != [] {
      var front, act := acts[..|acts| - 1], acts[|acts| - 1];
      WhatTheSamplerTakes(front);
      OneMoreAct(acts);
      MappedMaybe(if act.Sample? then [] else Unsampled(front), RecordedBy(act), Latency);
      MappedMaybe(if act.Sample? then [] else Unsampled(front), RecordedBy(act), Lateness);
    }
  }

  function RecordsOfKind(kind: Kind): Act -> bool {
    (act: Act) => act.Record? && KindOf(act.row.outcome) == kind
  }

  /** The running counters count the acts, each call under its one kind. */
  lemma {:induction false} CountersCount(acts: seq<Act>)
    ensures var a := Run(acts);
            && a.offered == CountIf(acts, (x: Act) => x.Offer?) && a.started == CountIf(acts, (x: Act) => x.Start?)
            && a.completed == CountIf(acts, (x: Act) => x.Record?)
            && a.errorsTransport == CountIf(acts, RecordsOfKind(TransportError))
            && a.errorsApp == CountIf(acts, RecordsOfKind(AppError))
            && a.errorsHttp == CountIf(acts, RecordsOfKind(HttpError))
  {
    if acts != [] {
      CountersCount(acts[..|acts| - 1]);
    }
  }
}
