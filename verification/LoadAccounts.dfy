/** The accounts of the load engine over the interleavings of its threads: the calls the
    threads make keep the counters, the untaken calls and the windows in step with the
    machine. */
module LoadAccounts {
  import opened Wrappers
  import opened Counting
  import opened Sending
  import R = LoadRuns
  import L = LoadEngine

  /** What each call's row would say; of the machine it carries the phase. */
  type Rows = R.Call -> Row

  ghost predicate Labelled(rows: Rows) {
    forall c :: rows(c).phase == c.item.phase
  }

  function RowsOf(calls: seq<R.Call>, rows: Rows): seq<Row> {
    Mapped(calls, rows)
  }

  /** The call a step makes on the shared accounts, if it makes one. */
  function ActOf(e: R.Engine, step: R.Step, rows: Rows): Option<L.Act>
    requires R.Enabled(e, step)
  {
    match step
    case Count => Some(L.Offer)
    case Start(_) => Some(L.Start)
    case Record(u) => Some(L.Record(rows(R.Call(u, e.stages[u].item))))
    case Close => Some(L.Close(e.offerer.play.phase, |e.offerer.play.rows|, |e.log|))
    case _ => None
  }

  function Acted(a: L.Accounts, act: Option<L.Act>): L.Accounts {
    match act
    case Some(one) => L.Do(a, one)
    case None => a
  }

  function AccountsAfter(e: R.Engine, steps: seq<R.Step>, a: L.Accounts, rows: Rows): L.Accounts
    requires R.Feasible(e, steps)
    decreases |steps|
  {
    if steps == [] then a
    else AccountsAfter(R.Next(e, steps[0]), steps[1..], Acted(a, ActOf(e, steps[0], rows)), rows)
  }

  predicate SameWindow(w: R.Settlement, v: L.Window) {
    && v.phase == w.play.phase && v.declared == |w.play.rows|
    && v.offered == |w.offered| && v.completed == |w.calls|
  }

  predicate SameWindows(ws: seq<R.Settlement>, vs: seq<L.Window>) {
    |ws| == |vs| && forall i :: 0 <= i < |ws| ==> SameWindow(ws[i], vs[i])
  }

  predicate InStep(e: R.Engine, a: L.Accounts, rows: Rows) {
    && a.offered == e.offered && a.started == e.started && a.completed == e.completed
    && a.windowCalls == RowsOf(e.calls, rows)
    && SameWindows(e.windows, a.windows)
  }

  /** Picking the calls of a phase and picking their rows is the same. */
  lemma RowsOfThePhase(calls: seq<R.Call>, rows: Rows, phase: string)
    requires Labelled(rows)
    ensures L.OfPhase(RowsOf(calls, rows), phase) == RowsOf(Filter(calls, R.In(phase)), rows)
    ensures L.OffPhase(RowsOf(calls, rows), phase) == RowsOf(Filter(calls, R.Out(phase)), rows)
  {
    FilterMaps(calls, rows, R.In(phase), (r: Row) => r.phase == phase);
    FilterMaps(calls, rows, R.Out(phase), (r: Row) => r.phase != phase);
  }

  lemma ClosedAlike(a: L.Accounts, calls: seq<R.Call>, rows: Rows, ws: seq<R.Settlement>, play: R.Play,
                    log: seq<R.Call>, crashed: seq<R.Call>)
    requires a.windowCalls == RowsOf(calls, rows) && Labelled(rows) && SameWindows(ws, a.windows)
    ensures var closed := L.Closed(a, play.phase, |play.rows|, |log|);
            && closed.windowCalls == RowsOf(Filter(calls, R.Out(play.phase)), rows)
            && SameWindows(ws + [R.Settlement(play, log, Filter(calls, R.In(play.phase)), crashed)], closed.windows)
  {
    RowsOfThePhase(calls, rows, play.phase);
    MappedLength(Filter(calls, R.In(play.phase)), rows);
    OneMoreWindow(ws, a.windows, R.Settlement(play, log, Filter(calls, R.In(play.phase)), crashed),
                  L.WindowOf(L.OfPhase(a.windowCalls, play.phase), play.phase, |play.rows|, |log|));
  }

  lemma CloseKeepsStep(e: R.Engine, a: L.Accounts, rows: Rows)
    requires InStep(e, a, rows) && Labelled(rows) && R.Enabled(e, R.Close)
    ensures InStep(R.Next(e, R.Close), Acted(a, ActOf(e, R.Close, rows)), rows)
  {
    ClosedAlike(a, e.calls, rows, e.windows, e.offerer.play, e.log, e.crashed);
  }

  lemma OneMoreWindow(ws: seq<R.Settlement>, vs: seq<L.Window>, w: R.Settlement, v: L.Window)
    requires SameWindows(ws, vs) && SameWindow(w, v)
    ensures SameWindows(ws + [w], vs + [v])
  {
  }

  lemma StepKeepsStep(e: R.Engine, step: R.Step, a: L.Accounts, rows: Rows)
    requires InStep(e, a, rows) && Labelled(rows) && R.Enabled(e, step)
    ensures InStep(R.Next(e, step), Acted(a, ActOf(e, step, rows)), rows)
  {
    match step
    case Record(u) => MappedAppend(e.calls, R.Call(u, e.stages[u].item), rows);
    case Close => CloseKeepsStep(e, a, rows);
    case _ =>
  }

  lemma {:induction false} RunKeepsStep(e: R.Engine, steps: seq<R.Step>, a: L.Accounts, rows: Rows)
    requires InStep(e, a, rows) && Labelled(rows) && R.Feasible(e, steps)
    ensures InStep(R.After(e, steps), AccountsAfter(e, steps, a, rows), rows)
    decreases |steps|
  {
    if steps != [] {
      StepKeepsStep(e, steps[0], a, rows);
      RunKeepsStep(R.Next(e, steps[0]), steps[1..], Acted(a, ActOf(e, steps[0], rows)), rows);
    }
  }

  /** In every interleaving of offerer and user threads, whatever the calls bring back,
      the engine's own counters, untaken calls and windows are those of the machine; so
      every window it reports completed what it offered, short of the calls that crashed. */
  lemma AccountsFollowTheThreads(users: nat, steps: seq<R.Step>, rows: Rows)
    requires R.Feasible(R.NewEngine(users), steps) && Labelled(rows)
    ensures var e := R.After(R.NewEngine(users), steps);
            var a := AccountsAfter(R.NewEngine(users), steps, L.NEW_ACCOUNTS, rows);
            && InStep(e, a, rows)
            && forall i :: 0 <= i < |a.windows| ==>
                 a.windows[i].offered == a.windows[i].completed + |e.windows[i].crashed|
  {
    RunKeepsStep(R.NewEngine(users), steps, L.NEW_ACCOUNTS, rows);
    R.ClosedWindowsSettle(users, steps);
    var e := R.After(R.NewEngine(users), steps);
    var a := AccountsAfter(R.NewEngine(users), steps, L.NEW_ACCOUNTS, rows);
    forall i | 0 <= i < |a.windows|
      ensures a.windows[i].offered == a.windows[i].completed + |e.windows[i].crashed|
    {
      assert SameWindow(e.windows[i], a.windows[i]);
      assert e.windows[i] in e.windows;
    }
  }
}
