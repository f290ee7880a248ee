/** The engine's accounts: the counters, the calls no window has taken yet, and the
    windows. One lock guards each method, so any interleaving of threads is some
    sequence of them. */
module LoadEngine {
  import opened Wrappers
  import opened Sending
  import opened Percentile
  import opened Counting

  datatype Window = Window(phase: string, declared: nat, offered: nat, completed: nat, responses: nat,
                           p50: Option<int>, p95: Option<int>, p99: Option<int>,
                           errorsHttp: nat, errorsApp: nat, errorsTransport: nat, truncated: bool)

  datatype Interval = Interval(lat: seq<int>, late: seq<int>)

  datatype Accounts = Accounts(offered: nat, started: nat, completed: nat,
                               errorsHttp: nat, errorsApp: nat, errorsTransport: nat,
                               lat: seq<int>, late: seq<int>, windowCalls: seq<Row>, windows: seq<Window>)

  const NEW_ACCOUNTS := Accounts(0, 0, 0, 0, 0, 0, [], [], [], [])

  function Recorded(a: Accounts, row: Row): Accounts {
    var kind := KindOf(row.outcome);
    a.(completed := a.completed + 1, lat := a.lat + [row.latency], late := a.late + [row.lateness],
       errorsTransport := a.errorsTransport + (if kind == TransportError then 1 else 0),
       errorsApp := a.errorsApp + (if kind == AppError then 1 else 0),
       errorsHttp := a.errorsHttp + (if kind == HttpError then 1 else 0),
       windowCalls := a.windowCalls + [row])
  }

  function OfPhase(rows: seq<Row>, phase: string): seq<Row> {
    Filter(rows, (r: Row) => r.phase == phase)
  }

  function OffPhase(rows: seq<Row>, phase: string): seq<Row> {
    Filter(rows, (r: Row) => r.phase != phase)
  }

  function Latencies(rows: seq<Row>): seq<int> {
    seq(|rows|, i requires 0 <= i < |rows| => rows[i].latency)
  }

  function WindowOf(calls: seq<Row>, phase: string, declared: nat, offered: nat): Window {
    Window(phase, declared, offered, |calls|, CountIf(calls, Responded),
           PercentileOf(Latencies(calls), 50), PercentileOf(Latencies(calls), 95),
           PercentileOf(Latencies(calls), 99),
           CountIf(calls, CountsHttp), CountIf(calls, CountsApp), CountIf(calls, CountsTransport),
           offered < declared)
  }

  function Closed(a: Accounts, phase: string, declared: nat, offered: nat): Accounts {
    a.(windowCalls := OffPhase(a.windowCalls, phase),
       windows := a.windows + [WindowOf(OfPhase(a.windowCalls, phase), phase, declared, offered)])
  }

  class LoadEngine {
    var offered: nat
    var started: nat
    var completed: nat
    var errorsHttp: nat
    var errorsApp: nat
    var errorsTransport: nat
    var lat: seq<int>
    var late: seq<int>
    var windowCalls: seq<Row>
    var windows: seq<Window>

    ghost function Value(): Accounts
      reads this
    {
      Accounts(offered, started, completed, errorsHttp, errorsApp, errorsTransport,
               lat, late, windowCalls, windows)
    }

    constructor ()
      ensures Value() == NEW_ACCOUNTS
    {
      offered, started, completed, errorsHttp, errorsApp, errorsTransport := 0, 0, 0, 0, 0, 0;
      lat, late, windowCalls, windows := [], [], [], [];
    }

    method CountOffered()
      modifies this`offered
      ensures Value() == old(Value()).(offered := old(offered) + 1)
    {
      offered := offered + 1;
    }

    method CountStarted()
      modifies this`started
      ensures Value() == old(Value()).(started := old(started) + 1)
    {
      started := started + 1;
    }

    method RecordCall(row: Row)
      modifies this
      ensures Value() == Recorded(old(Value()), row)
    {
      completed := completed + 1;
      lat := lat + [row.latency];
      late := late + [row.lateness];
      if row.outcome.transportError != "" {
        errorsTransport := errorsTransport + 1;
      } else if row.outcome.appError != "" {
        errorsApp := errorsApp + 1;
      } else if row.outcome.status != Some(200) {
        errorsHttp := errorsHttp + 1;
      }
      windowCalls := windowCalls + [row];
    }

    method TakeInterval() returns (interval: Interval)
      modifies this`lat, this`late
      ensures interval == Interval(Sorted(old(lat)), Sorted(old(late)))
      ensures Value() == old(Value()).(lat := [], late := [])
    {
      interval := Interval(Sorted(lat), Sorted(late));
      lat, late := [], [];
    }

    method CloseWindow(phase: string, declared: nat, offeredRows: nat) returns (window: Window)
      modifies this`windowCalls, this`windows
      ensures Value() == Closed(old(Value()), phase, declared, offeredRows)
      ensures window == windows[|windows| - 1]
    {
      var calls, left := [], [];
      for i := 0 to |windowCalls|
        invariant windowCalls == old(windowCalls) && windows == old(windows)
        invariant calls == OfPhase(windowCalls[..i], phase) && left == OffPhase(windowCalls[..i], phase)
      {
        assert windowCalls[..i + 1] == windowCalls[..i] + [windowCalls[i]];
        AppendCounts(windowCalls[..i], windowCalls[i], (r: Row) => r.phase == phase);
        AppendCounts(windowCalls[..i], windowCalls[i], (r: Row) => r.phase != phase);
        if windowCalls[i].phase == phase {
          calls := calls + [windowCalls[i]];
        } else {
          left := left + [windowCalls[i]];
        }
      }
      assert windowCalls[..|windowCalls|] == windowCalls;
      windowCalls := left;
      window := WindowOf(calls, phase, declared, offeredRows);
      windows := windows + [window];
    }
  }

  /* ---------------- the accounts over whole runs ---------------- */

  datatype Act = Offer | Start | Record(row: Row) | Sample | Close(phase: string, declared: nat, offered: nat)

  function Do(a: Accounts, act: Act): Accounts {
    match act
    case Offer => a.(offered := a.offered + 1)
    case Start => a.(started := a.started + 1)
    case Record(row) => Recorded(a, row)
    case Sample => a.(lat := [], late := [])
    case Close(phase, declared, offered) => Closed(a, phase, declared, offered)
  }

  function Run(acts: seq<Act>): Accounts {
    if acts == [] then NEW_ACCOUNTS else Do(Run(acts[..|acts| - 1]), acts[|acts| - 1])
  }

  function TotalCompleted(ws: seq<Window>): nat {
    if ws == [] then 0 else TotalCompleted(ws[..|ws| - 1]) + ws[|ws| - 1].completed
  }

  function TotalOf(ws: seq<Window>, kind: Kind): nat {
    if ws == [] then 0
    else
      var w := ws[|ws| - 1];
      TotalOf(ws[..|ws| - 1], kind) +
      match kind
      case HttpError => w.errorsHttp
      case AppError => w.errorsApp
      case TransportError => w.errorsTransport
      case Success => 0
  }

  predicate CountsAs(r: Row, kind: Kind) {
    match kind
    case HttpError => CountsHttp(r)
    case AppError => CountsApp(r)
    case TransportError => CountsTransport(r)
    case Success => false
  }

  function RunningOf(a: Accounts, kind: Kind): nat {
    match kind
    case HttpError => a.errorsHttp
    case AppError => a.errorsApp
    case TransportError => a.errorsTransport
    case Success => 0
  }

  /** No recorded call wears two errors, as none that `Send` reports does. */
  predicate OneKindActs(acts: seq<Act>) {
    forall act <- acts :: act.Record? ==> OneKind(act.row)
  }

  /** Over every run, each completed call is counted in one window or waits for one,
      never in two. */
  lemma {:induction false} WindowsShareOutTheCalls(acts: seq<Act>)
    ensures var a := Run(acts); a.completed == TotalCompleted(a.windows) + |a.windowCalls|
  {
    if acts != [] {
      WindowsShareOutTheCalls(acts[..|acts| - 1]);
      var a, act := Run(acts[..|acts| - 1]), acts[|acts| - 1];
      if act.Close? {
        FilterSplits(a.windowCalls, (r: Row) => r.phase == act.phase, (r: Row) => r.phase != act.phase, Responded);
        var w := WindowOf(OfPhase(a.windowCalls, act.phase), act.phase, act.declared, act.offered);
        assert (a.windows + [w])[..|a.windows|] == a.windows;
      }
    }
  }

  lemma WindowCountsKind(calls: seq<Row>, phase: string, declared: nat, offered: nat, kind: Kind)
    ensures TotalOf([WindowOf(calls, phase, declared, offered)], kind) == CountIf(calls, r => CountsAs(r, kind))
  {
    match kind
    case HttpError => CountsAgree(calls, CountsHttp, r => CountsAs(r, kind));
    case AppError => CountsAgree(calls, CountsApp, r => CountsAs(r, kind));
    case TransportError => CountsAgree(calls, CountsTransport, r => CountsAs(r, kind));
    case Success => CountsNone(calls, r => CountsAs(r, kind));
  }

  lemma {:induction false} CountsNone(calls: seq<Row>, p: Row -> bool)
    requires forall r :: !p(r)
    ensures CountIf(calls, p) == 0
  {
    if calls != [] {
      CountsNone(calls[..|calls| - 1], p);
    }
  }

  lemma RecordingCounts(a: Accounts, row: Row, kind: Kind)
    requires OneKind(row)
    ensures RunningOf(Recorded(a, row), kind) == RunningOf(a, kind) + if CountsAs(row, kind) then 1 else 0
  {
    CountsAreKinds(row);
  }

  lemma ClosingCounts(a: Accounts, phase: string, declared: nat, offered: nat, kind: Kind)
    ensures var a' := Closed(a, phase, declared, offered);
            TotalOf(a'.windows, kind) + CountIf(a'.windowCalls, r => CountsAs(r, kind))
            == TotalOf(a.windows, kind) + CountIf(a.windowCalls, r => CountsAs(r, kind))
  {
    var w := WindowOf(OfPhase(a.windowCalls, phase), phase, declared, offered);
    assert (a.windows + [w])[..|a.windows|] == a.windows && [w][..0] == [];
    WindowCountsKind(OfPhase(a.windowCalls, phase), phase, declared, offered, kind);
    FilterSplits(a.windowCalls, (r: Row) => r.phase == phase, (r: Row) => r.phase != phase,
                 r => CountsAs(r, kind));
  }

  /** Over every run, each running error counter is the windows' errors of that kind
      and those of the calls still waiting for a window: the two precedences, of the
      counters and of the windows, count the same. */
  lemma {:induction false} ErrorsAreConserved(acts: seq<Act>, kind: Kind)
    requires OneKindActs(acts)
    ensures var a := Run(acts);
            RunningOf(a, kind) == TotalOf(a.windows, kind) + CountIf(a.windowCalls, r => CountsAs(r, kind))
  {
    if acts != [] {
      var front, act := acts[..|acts| - 1], acts[|acts| - 1];
      ErrorsAreConserved(front, kind);
      assert act in acts;
      match act
      case Record(row) =>
        RecordingCounts(Run(front), row, kind);
        AppendCounts(Run(front).windowCalls, row, r => CountsAs(r, kind));
      case Close(phase, declared, offered) =>
        ClosingCounts(Run(front), phase, declared, offered, kind);
      case _ =>
    }
  }

  /** A window's responses are its calls without those that brought none back, and its
      HTTP errors, application errors and successes share the responses out. */
  lemma ResponsesOfAWindow(calls: seq<Row>, phase: string, declared: nat, offered: nat)
    requires forall r <- calls :: OneKind(r)
    ensures var w := WindowOf(calls, phase, declared, offered);
            && w.responses + w.errorsTransport == w.completed
            && w.errorsHttp + w.errorsApp + CountIf(calls, Succeeded) == w.responses
  {
    ErrorsPartitionTheWindow(calls);
    RespondedOrNot(calls);
  }

  lemma {:induction false} RespondedOrNot(calls: seq<Row>)
    ensures CountIf(calls, Responded) + CountIf(calls, CountsTransport) == |calls|
  {
    if calls != [] {
      RespondedOrNot(calls[..|calls| - 1]);
    }
  }
}
