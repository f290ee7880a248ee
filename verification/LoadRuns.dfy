/** The load engine under every interleaving of the thread that offers and the threads
    of the users: one queue per user, a scan that reads one queue at a time, and
    windows that close on what was completed. */
module LoadRuns {
  import opened Counting

  type User = nat

  /** A row of the trace in somebody's hands: its place in the window, and its phase. */
  datatype Item = Item(id: nat, phase: string)

  datatype Call = Call(user: User, item: Item)

  /** Where a user thread stands with the request it has taken from its queue. A thread
      that raised is dead: nobody serves its queue again. */
  datatype Stage = Free | Taken(item: Item) | Started(item: Item) | Recorded(item: Item) | Dead

  /** The window being played: its rows name their users; `i` rows have been visited. */
  datatype Play = Play(phase: string, rows: seq<User>, i: nat, withheld: nat, stopped: bool)

  /** The program of the offering thread. `Counted` has counted the row but not yet
      queued it; `Polling` is between two scans; a scan began over `of` queues, has read
      `u` of them and found `sum` tasks. */
  datatype Offerer =
    | Resting
    | Offering(play: Play)
    | Counted(play: Play)
    | Polling(play: Play)
    | Scanning(play: Play, u: nat, sum: int, of: nat)
    | Drained(play: Play)
    | TimedOut(play: Play)
    | Raised(play: Play)

  datatype Settlement = Settlement(play: Play, offered: seq<Call>, calls: seq<Call>, crashed: seq<Call>)

  /** `calls` are the completed calls no window has taken yet; `log` lists what the
      window in play has queued, in order, and `crashed` those of them that raised before
      they were recorded; the three numbers are the engine's counters. */
  datatype Engine = Engine(queues: seq<seq<Item>>, stages: seq<Stage>, unfinished: seq<int>,
                           offered: nat, started: nat, completed: nat, calls: seq<Call>,
                           calling: set<User>, offerer: Offerer, log: seq<Call>, crashed: seq<Call>,
                           windows: seq<Settlement>)

  datatype Step =
    | Register
    | Admit(u: User)
    | Pause(users: set<User>)
    | Begin(phase: string, rows: seq<User>)
    | Stop
    | Withhold
    | Count
    | Enqueue
    | EndRows
    | BeginScan
    | ReadPending
    | EndScan
    | GiveUp
    | ScanRaises
    | Close
    | Take(u: User)
    | Start(u: User)
    | Record(u: User)
    | Finish(u: User)
    | Crash(u: User)

  function Users(e: Engine): nat {
    |e.queues|
  }

  predicate Enabled(e: Engine, step: Step) {
    match step
    case Register => true
    case Admit(u) => u < Users(e)
    case Pause(_) => true
    case Begin(_, rows) => e.offerer.Resting? && rows != []
    case Stop => e.offerer.Offering?
    case Withhold => e.offerer.Offering? && e.offerer.play.i < |e.offerer.play.rows| &&
                     e.offerer.play.rows[e.offerer.play.i] !in e.calling
    case Count => e.offerer.Offering? && e.offerer.play.i < |e.offerer.play.rows| &&
                  e.offerer.play.rows[e.offerer.play.i] in e.calling
    case Enqueue => e.offerer.Counted? && e.offerer.play.i < |e.offerer.play.rows| &&
                    e.offerer.play.rows[e.offerer.play.i] < Users(e) &&
                    e.offerer.play.rows[e.offerer.play.i] < |e.unfinished|
    case EndRows => e.offerer.Offering? && e.offerer.play.i == |e.offerer.play.rows|
    case BeginScan => e.offerer.Polling?
    case ReadPending => e.offerer.Scanning? && e.offerer.u < e.offerer.of == |e.unfinished|
    case EndScan => e.offerer.Scanning? && e.offerer.u == e.offerer.of == |e.unfinished|
    case GiveUp => e.offerer.Scanning? && e.offerer.u == e.offerer.of == |e.unfinished| && e.offerer.sum != 0
    case ScanRaises => e.offerer.Scanning? && e.offerer.of != |e.unfinished|
    case Close => e.offerer.Drained?
    case Take(u) => u < Users(e) && u < |e.stages| && e.stages[u].Free? && e.queues[u] != []
    case Start(u) => u < |e.stages| && e.stages[u].Taken?
    case Record(u) => u < |e.stages| && e.stages[u].Started?
    case Finish(u) => u < |e.stages| && u < |e.unfinished| && e.stages[u].Recorded?
    case Crash(u) => u < |e.stages| && u < |e.unfinished| && !e.stages[u].Free? && !e.stages[u].Dead?
  }

  function In(phase: string): Call -> bool {
    (c: Call) => c.item.phase == phase
  }

  function Out(phase: string): Call -> bool {
    (c: Call) => c.item.phase != phase
  }

  function Next(e: Engine, step: Step): Engine
    requires Enabled(e, step)
  {
    match step
    case Register =>
      e.(queues := e.queues + [[]], stages := e.stages + [Free], unfinished := e.unfinished + [0])
    case Admit(u) => e.(calling := e.calling + {u})
    case Pause(users) => e.(calling := e.calling - users)
    case Begin(phase, rows) => e.(offerer := Offering(Play(phase, rows, 0, 0, false)), log := [])
    case Stop => e.(offerer := Polling(e.offerer.play.(stopped := true)))
    case Withhold =>
      var play := e.offerer.play;
      e.(offerer := Offering(play.(i := play.i + 1, withheld := play.withheld + 1)))
    case Count => e.(offered := e.offered + 1, offerer := Counted(e.offerer.play))
    case Enqueue =>
      var play := e.offerer.play;
      var u, item := play.rows[play.i], Item(play.i, play.phase);
      e.(queues := e.queues[u := e.queues[u] + [item]],
         unfinished := e.unfinished[u := e.unfinished[u] + 1],
         offerer := Offering(play.(i := play.i + 1)), log := e.log + [Call(u, item)])
    case EndRows => e.(offerer := Polling(e.offerer.play))
    case BeginScan => e.(offerer := Scanning(e.offerer.play, 0, 0, |e.unfinished|))
    case ReadPending =>
      e.(offerer := e.offerer.(u := e.offerer.u + 1, sum := e.offerer.sum + e.unfinished[e.offerer.u]))
    case EndScan =>
      e.(offerer := if e.offerer.sum == 0 then Drained(e.offerer.play) else Polling(e.offerer.play))
    case GiveUp => e.(offerer := TimedOut(e.offerer.play))
    case ScanRaises => e.(offerer := Raised(e.offerer.play))
    case Close =>
      var play := e.offerer.play;
      e.(offerer := Resting, log := [], crashed := [], calls := Filter(e.calls, Out(play.phase)),
         windows := e.windows + [Settlement(play, e.log, Filter(e.calls, In(play.phase)), e.crashed)])
    case Take(u) =>
      e.(queues := e.queues[u := e.queues[u][1..]], stages := e.stages[u := Taken(e.queues[u][0])])
    case Start(u) => e.(started := e.started + 1, stages := e.stages[u := Started(e.stages[u].item)])
    case Record(u) =>
      e.(completed := e.completed + 1, calls := e.calls + [Call(u, e.stages[u].item)],
         stages := e.stages[u := Recorded(e.stages[u].item)])
    case Finish(u) =>
      e.(stages := e.stages[u := Free], unfinished := e.unfinished[u := e.unfinished[u] - 1])
    case Crash(u) =>
      e.(stages := e.stages[u := Dead], unfinished := e.unfinished[u := e.unfinished[u] - 1],
         crashed := e.crashed + if e.stages[u].Recorded? then [] else [Call(u, e.stages[u].item)])
  }

  function NewEngine(users: nat): Engine {
    Engine(seq(users, _ => []), seq(users, _ => Free), seq(users, _ => 0), 0, 0, 0, [], {}, Resting, [], [], [])
  }

  predicate Feasible(e: Engine, steps: seq<Step>)
    decreases |steps|
  {
    steps == [] || (Enabled(e, steps[0]) && Feasible(Next(e, steps[0]), steps[1..]))
  }

  function After(e: Engine, steps: seq<Step>): Engine
    requires Feasible(e, steps)
    decreases |steps|
  {
    if steps == [] then e else After(Next(e, steps[0]), steps[1..])
  }

  /* ---------------- one user's share ---------------- */

  function OfUser(calls: seq<Call>, u: User): seq<Item> {
    if calls == [] then []
    else OfUser(calls[..|calls| - 1], u) +
         if calls[|calls| - 1].user == u then [calls[|calls| - 1].item] else []
  }

  function InFlight(stage: Stage): seq<Item> {
    if stage.Taken? || stage.Started? then [stage.item] else []
  }

  lemma OfUserAppend(calls: seq<Call>, c: Call, u: User)
    ensures OfUser(calls + [c], u) == OfUser(calls, u) + if c.user == u then [c.item] else []
  {
    assert (calls + [c])[..|calls|] == calls;
  }

  lemma {:induction false} OfUserParts(calls: seq<Call>, more: seq<Call>, u: User)
    ensures OfUser(calls + more, u) == OfUser(calls, u) + OfUser(more, u)
  {
    if more == [] {
      assert calls + more == calls;
    } else {
      assert calls + more == (calls + more[..|more| - 1]) + [more[|more| - 1]];
      OfUserParts(calls, more[..|more| - 1], u);
      OfUserAppend(calls + more[..|more| - 1], more[|more| - 1], u);
    }
  }

  lemma {:induction false} CountByUser(calls: seq<Call>, c: Call)
    ensures multiset(calls)[c] == multiset(OfUser(calls, c.user))[c.item]
  {
    if calls != [] {
      var front, last := calls[..|calls| - 1], calls[|calls| - 1];
      CountByUser(front, c);
      assert calls == front + [last];
    }
  }

  /** Lists that agree user by user hold the same calls, as often. */
  lemma SamePerUser(calls: seq<Call>, others: seq<Call>)
    requires forall u :: OfUser(calls, u) == OfUser(others, u)
    ensures multiset(calls) == multiset(others) && |calls| == |others|
  {
    forall c ensures multiset(calls)[c] == multiset(others)[c] {
      CountByUser(calls, c);
      CountByUser(others, c);
    }
    assert multiset(calls) == multiset(others);
    assert |calls| == |multiset(calls)| && |others| == |multiset(others)|;
  }

  lemma OfUserHas(calls: seq<Call>, u: User, item: Item)
    ensures item in OfUser(calls, u) <==> Call(u, item) in calls
  {
    CountByUser(calls, Call(u, item));
    assert Call(u, item) in calls <==> multiset(calls)[Call(u, item)] > 0;
    assert item in OfUser(calls, u) <==> multiset(OfUser(calls, u))[item] > 0;
  }

  lemma {:induction false} OfUserOutside(calls: seq<Call>, u: User, users: nat)
    requires forall c <- calls :: c.user < users
    requires u >= users
    ensures OfUser(calls, u) == []
  {
    if calls != [] {
      assert calls[|calls| - 1] in calls;
      OfUserOutside(calls[..|calls| - 1], u, users);
    }
  }

  lemma {:induction false} AllOfPhase(calls: seq<Call>, phase: string)
    requires forall c <- calls :: c.item.phase == phase
    ensures Filter(calls, In(phase)) == calls && Filter(calls, Out(phase)) == []
  {
    if calls != [] {
      assert calls[|calls| - 1] in calls;
      AllOfPhase(calls[..|calls| - 1], phase);
    }
  }

  /* ---------------- the invariant ---------------- */

  /** Every user: what it was offered is what it completed, then the one call that
      killed its thread, then what it has on the wire, then what waits, in that order; and
      its task count counts the last two and a call recorded but not yet signed off. */
  ghost predicate Ordered(e: Engine, u: User)
    requires u < |e.queues| && u < |e.stages| && u < |e.unfinished|
  {
    && OfUser(e.log, u) == OfUser(e.calls, u) + OfUser(e.crashed, u) + InFlight(e.stages[u]) + e.queues[u]
    && e.unfinished[u] == |e.queues[u]| + (if e.stages[u].Free? || e.stages[u].Dead? then 0 else 1)
    && |OfUser(e.crashed, u)| <= (if e.stages[u].Dead? then 1 else 0)
  }

  ghost predicate Shaped(e: Engine) {
    && |e.stages| == |e.queues| == |e.unfinished|
    && (forall c <- e.log :: c.user < Users(e))
    && (forall c <- e.calls :: c.user < Users(e))
    && (forall c <- e.crashed :: c.user < Users(e))
    && forall u :: 0 <= u < Users(e) ==> Ordered(e, u)
  }

  /** The rows that were offered: distinct, in row order, each its own user's. */
  ghost predicate Rows(log: seq<Call>, play: Play) {
    && (forall k :: 0 <= k < |log| ==>
          && log[k].item.id < play.i <= |play.rows| && log[k].item.phase == play.phase
          && log[k].user == play.rows[log[k].item.id])
    && (forall j, k :: 0 <= j < k < |log| ==> log[j].item.id < log[k].item.id)
    && |log| + play.withheld == play.i <= |play.rows|
  }

  ghost predicate Programmed(e: Engine) {
    match e.offerer
    case Resting => e.log == [] && e.calls == [] && e.crashed == [] && forall u :: 0 <= u < |e.unfinished| ==> e.unfinished[u] == 0
    case Offering(play) => Rows(e.log, play) && !play.stopped
    case Counted(play) => Rows(e.log, play) && play.i < |play.rows| && !play.stopped
    case Polling(play) => Rows(e.log, play) && (play.i < |play.rows| ==> play.stopped)
    case Scanning(play, u, sum, of) =>
      && Rows(e.log, play) && (play.i < |play.rows| ==> play.stopped)
      && u <= of <= |e.unfinished| && sum >= 0
      && (sum == 0 ==> forall v :: 0 <= v < u && v < |e.unfinished| ==> e.unfinished[v] == 0)
    case Drained(play) =>
      && Rows(e.log, play) && (play.i < |play.rows| ==> play.stopped)
      && forall u :: 0 <= u < |e.unfinished| ==> e.unfinished[u] == 0
    case TimedOut(play) => Rows(e.log, play)
    case Raised(play) => Rows(e.log, play)
  }

  ghost predicate Bounded(e: Engine) {
    && (forall u <- e.calling :: u < Users(e))
    && (e.offerer.Counted? && e.offerer.play.i < |e.offerer.play.rows| ==>
          e.offerer.play.rows[e.offerer.play.i] < Users(e))
  }

  /** A window that closed: every call it offered was completed once or crashed, a
      crash being its user's last, each user's in order; and the rows it visited were
      offered or withheld. */
  ghost predicate Settled(w: Settlement) {
    && |w.offered| == |w.calls| + |w.crashed|
    && multiset(w.offered) == multiset(w.calls) + multiset(w.crashed)
    && (forall u :: OfUser(w.offered, u) == OfUser(w.calls, u) + OfUser(w.crashed, u) && |OfUser(w.crashed, u)| <= 1)
    && Rows(w.offered, w.play)
    && (w.play.stopped || w.play.i == |w.play.rows|)
  }

  function Offered(windows: seq<Settlement>): nat {
    if windows == [] then 0 else Offered(windows[..|windows| - 1]) + |windows[|windows| - 1].offered|
  }

  function Completed(windows: seq<Settlement>): nat {
    if windows == [] then 0 else Completed(windows[..|windows| - 1]) + |windows[|windows| - 1].calls|
  }

  function Crashed(windows: seq<Settlement>): nat {
    if windows == [] then 0 else Crashed(windows[..|windows| - 1]) + |windows[|windows| - 1].crashed|
  }

  ghost predicate Counts(e: Engine) {
    && e.offered == Offered(e.windows) + |e.log| + (if e.offerer.Counted? then 1 else 0)
    && e.completed == Completed(e.windows) + |e.calls|
  }

  ghost predicate AllSettled(windows: seq<Settlement>) {
    windows == [] || (AllSettled(windows[..|windows| - 1]) && Settled(windows[|windows| - 1]))
  }

  lemma {:induction false} SettledOne(windows: seq<Settlement>, w: Settlement)
    requires AllSettled(windows) && w in windows
    ensures Settled(w)
  {
    if w != windows[|windows| - 1] {
      SettledOne(windows[..|windows| - 1], w);
    }
  }

  ghost predicate Inv(e: Engine) {
    Shaped(e) && Programmed(e) && Bounded(e) && Counts(e)
  }

  /* ---------------- every step keeps it ---------------- */

  predicate OfUserThread(step: Step) {
    step.Take? || step.Start? || step.Record? || step.Finish? || step.Crash?
  }

  lemma OwnStepKeepsOrder(e: Engine, step: Step)
    requires Shaped(e) && Enabled(e, step) && OfUserThread(step)
    requires step.u < Users(e)
    ensures Ordered(Next(e, step), step.u)
  {
    assert Ordered(e, step.u);
    match step
    case Record(u) => RecordKeepsOrder(e, u);
    case Crash(u) => CrashKeepsOrder(e, u);
    case Take(u) => assert e.queues[u] == [e.queues[u][0]] + e.queues[u][1..];
    case _ =>
  }

  lemma RecordKeepsOrder(e: Engine, u: User)
    requires Enabled(e, Record(u)) && u < Users(e) && u < |e.unfinished| && Ordered(e, u)
    ensures Ordered(Next(e, Record(u)), u)
  {
    OfUserAppend(e.calls, Call(u, e.stages[u].item), u);
  }

  lemma CrashKeepsOrder(e: Engine, u: User)
    requires Enabled(e, Crash(u)) && u < Users(e) && Ordered(e, u)
    ensures Ordered(Next(e, Crash(u)), u)
  {
    var e' := Next(e, Crash(u));
    assert OfUser(e.crashed, u) == [];
    if e.stages[u].Recorded? {
      assert e'.crashed == e.crashed;
    } else {
      OfUserAppend(e.crashed, Call(u, e.stages[u].item), u);
      assert OfUser(e'.crashed, u) == InFlight(e.stages[u]);
      DeadOneMovesOver(OfUser(e.calls, u), InFlight(e.stages[u]), e.queues[u]);
    }
  }

  lemma DeadOneMovesOver(done: seq<Item>, last: seq<Item>, waiting: seq<Item>)
    ensures done + [] + last + waiting == done + last + [] + waiting
  {
  }

  lemma OthersStepKeepsOrder(e: Engine, step: Step, u: User)
    requires Shaped(e) && Enabled(e, step) && OfUserThread(step)
    requires u < Users(e) && u != step.u
    ensures Ordered(Next(e, step), u)
  {
    var e' := Next(e, step);
    assert OfUser(e'.calls, u) == OfUser(e.calls, u) by {
      if step.Record? {
        OfUserAppend(e.calls, Call(step.u, e.stages[step.u].item), u);
      }
    }
    assert OfUser(e'.crashed, u) == OfUser(e.crashed, u) by {
      if step.Crash? {
        AnothersCrash(e, step.u, u);
      }
    }
    SameShareKeepsOrder(e, e', u);
  }

  lemma SameShareKeepsOrder(e: Engine, e': Engine, u: User)
    requires Shaped(e) && u < Users(e) && u < |e'.queues| && u < |e'.stages| && u < |e'.unfinished|
    requires e'.log == e.log && OfUser(e'.calls, u) == OfUser(e.calls, u) && OfUser(e'.crashed, u) == OfUser(e.crashed, u)
    requires e'.queues[u] == e.queues[u] && e'.stages[u] == e.stages[u] && e'.unfinished[u] == e.unfinished[u]
    ensures Ordered(e', u)
  {
    assert Ordered(e, u);
  }

  lemma AnothersCrash(e: Engine, v: User, u: User)
    requires Enabled(e, Crash(v)) && u != v
    ensures OfUser(Next(e, Crash(v)).crashed, u) == OfUser(e.crashed, u)
  {
    if e.stages[v].Recorded? {
      assert e.crashed + [] == e.crashed;
    } else {
      OfUserAppend(e.crashed, Call(v, e.stages[v].item), u);
    }
  }

  lemma UserStepKeepsShape(e: Engine, step: Step)
    requires Inv(e) && Enabled(e, step) && OfUserThread(step)
    ensures Shaped(Next(e, step))
  {
    forall u | 0 <= u < Users(e) ensures Ordered(Next(e, step), u) {
      if u == step.u { OwnStepKeepsOrder(e, step); } else { OthersStepKeepsOrder(e, step, u); }
    }
  }

  /** No step of a user thread raises a task count, and a count of none stays. */
  lemma UserStepLowers(e: Engine, step: Step, u: User)
    requires Shaped(e) && Enabled(e, step) && OfUserThread(step) && u < |e.unfinished|
    ensures u < |Next(e, step).unfinished| && 0 <= Next(e, step).unfinished[u] <= e.unfinished[u]
  {
    assert Ordered(e, u);
  }

  lemma UserStepKeepsProgram(e: Engine, step: Step)
    requires Inv(e) && Enabled(e, step) && OfUserThread(step)
    ensures Programmed(Next(e, step))
  {
    var e' := Next(e, step);
    assert Ordered(e, step.u);
    assert e'.offerer == e.offerer && e'.log == e.log && |e'.unfinished| == |e.unfinished|;
    forall u | 0 <= u < |e.unfinished| ensures 0 <= e'.unfinished[u] <= e.unfinished[u] {
      UserStepLowers(e, step, u);
    }
    NotAtRest(e, step);
  }

  /** Between windows no user thread has anything to do. */
  lemma NotAtRest(e: Engine, step: Step)
    requires Inv(e) && Enabled(e, step) && OfUserThread(step)
    ensures !e.offerer.Resting?
  {
    assert Ordered(e, step.u);
  }

  lemma EnqueueKeepsShape(e: Engine)
    requires Inv(e) && Enabled(e, Enqueue)
    ensures Shaped(Next(e, Enqueue))
  {
    var e', play := Next(e, Enqueue), e.offerer.play;
    var c := Call(play.rows[play.i], Item(play.i, play.phase));
    forall u | 0 <= u < Users(e') ensures Ordered(e', u) {
      assert Ordered(e, u);
      OfUserAppend(e.log, c, u);
    }
  }

  /** While the offering thread scans, no step of any thread lets a user's task count
      grow. */
  lemma CountsOnlyFallDuringAScan(e: Engine, step: Step, u: User)
    requires Inv(e) && Enabled(e, step) && e.offerer.Scanning? && u < |e.unfinished|
    ensures 0 <= Next(e, step).unfinished[u] <= e.unfinished[u]
  {
    assert Ordered(e, u);
  }

  predicate Quiet(e: Engine, u: User)
    requires u < |e.queues| && u < |e.stages| && u < |e.unfinished|
  {
    e.unfinished[u] == 0 && e.queues[u] == [] && (e.stages[u].Free? || e.stages[u].Dead?)
  }

  lemma DrainedIsQuiet(e: Engine)
    requires Inv(e) && e.offerer.Drained?
    ensures forall u :: 0 <= u < Users(e) ==> Quiet(e, u)
  {
    forall u | 0 <= u < Users(e) ensures Quiet(e, u) {
      assert Ordered(e, u);
    }
  }

  /** When nothing is pending every call of the window was completed or crashed. */
  lemma DrainedIsDone(e: Engine)
    requires Inv(e) && e.offerer.Drained?
    ensures forall u: User :: OfUser(e.log, u) == OfUser(e.calls, u) + OfUser(e.crashed, u) && |OfUser(e.crashed, u)| <= 1
  {
    DrainedIsQuiet(e);
    forall u: User
      ensures OfUser(e.log, u) == OfUser(e.calls, u) + OfUser(e.crashed, u) && |OfUser(e.crashed, u)| <= 1
    {
      if u < Users(e) {
        assert Ordered(e, u) && Quiet(e, u);
      } else {
        OfUserOutside(e.log, u, Users(e));
        OfUserOutside(e.calls, u, Users(e));
        OfUserOutside(e.crashed, u, Users(e));
      }
    }
  }

  /** Every completed call no window has taken yet is of the window in play. */
  lemma CallsAreOfThePhase(e: Engine)
    requires Inv(e) && !e.offerer.Resting?
    ensures forall c <- e.calls :: c.item.phase == e.offerer.play.phase
  {
    forall c | c in e.calls ensures c.item.phase == e.offerer.play.phase {
      assert c.user < Users(e) && Ordered(e, c.user);
      OfUserHas(e.calls, c.user, c.item);
      OfUserHas(e.log, c.user, c.item);
      assert c in e.log;
    }
  }

  lemma ClosingSettles(e: Engine)
    requires Inv(e) && Enabled(e, Close)
    ensures var play := e.offerer.play;
            && Filter(e.calls, In(play.phase)) == e.calls && Filter(e.calls, Out(play.phase)) == []
            && Settled(Settlement(play, e.log, e.calls, e.crashed))
  {
    DrainedIsDone(e);
    CallsAreOfThePhase(e);
    AllOfPhase(e.calls, e.offerer.play.phase);
    forall u: User ensures OfUser(e.log, u) == OfUser(e.calls + e.crashed, u) {
      OfUserParts(e.calls, e.crashed, u);
    }
    SamePerUser(e.log, e.calls + e.crashed);
  }

  lemma CloseKeepsShape(e: Engine)
    requires Enabled(e, Close) && Filter(e.calls, Out(e.offerer.play.phase)) == []
    requires |e.stages| == |e.queues| == |e.unfinished| && forall u :: 0 <= u < Users(e) ==> Quiet(e, u)
    ensures Shaped(Next(e, Close)) && Programmed(Next(e, Close))
  {
    forall u | 0 <= u < Users(e) ensures e.unfinished[u] == 0 && Ordered(Next(e, Close), u) {
      assert Quiet(e, u);
    }
  }

  lemma OneMoreWindow(windows: seq<Settlement>, w: Settlement)
    ensures Offered(windows + [w]) == Offered(windows) + |w.offered|
    ensures Completed(windows + [w]) == Completed(windows) + |w.calls|
    ensures Crashed(windows + [w]) == Crashed(windows) + |w.crashed|
    ensures AllSettled(windows) && Settled(w) ==> AllSettled(windows + [w])
  {
    assert (windows + [w])[..|windows|] == windows;
  }

  lemma CloseKeepsInv(e: Engine, e': Engine)
    requires Inv(e) && Enabled(e, Close) && e' == Next(e, Close)
    ensures Inv(e')
  {
    DrainedIsQuiet(e);
    ClosingSettles(e);
    CloseKeepsShape(e);
    OneMoreWindow(e.windows, Settlement(e.offerer.play, e.log, e.calls, e.crashed));
  }

  lemma StepKeepsSettled(e: Engine, step: Step, e': Engine)
    requires Inv(e) && AllSettled(e.windows) && Enabled(e, step) && e' == Next(e, step)
    ensures AllSettled(e'.windows)
  {
    if step.Close? {
      ClosingSettles(e);
      OneMoreWindow(e.windows, Settlement(e.offerer.play, e.log, e.calls, e.crashed));
    }
  }

  lemma NewcomerIsOrdered(e: Engine)
    requires Shaped(e)
    ensures Ordered(Next(e, Register), Users(e))
  {
    OfUserOutside(e.log, Users(e), Users(e));
    OfUserOutside(e.calls, Users(e), Users(e));
    OfUserOutside(e.crashed, Users(e), Users(e));
  }

  lemma RegisteringKeepsShape(e: Engine)
    requires Shaped(e)
    ensures Shaped(Next(e, Register))
  {
    var e' := Next(e, Register);
    NewcomerIsOrdered(e);
    forall u | 0 <= u < Users(e') ensures Ordered(e', u) {
      if u < Users(e) {
        assert Ordered(e, u);
      }
    }
  }

  lemma OffererStepKeepsShape(e: Engine, step: Step, e': Engine)
    requires Shaped(e) && Enabled(e, step) && e' == Next(e, step)
    requires !OfUserThread(step) && !step.Close? && !step.Enqueue?
    requires step.Begin? ==> e.log == []
    ensures Shaped(e')
  {
    if step.Register? {
      RegisteringKeepsShape(e);
    } else {
      forall u | 0 <= u < Users(e') ensures Ordered(e', u) {
        assert Ordered(e, u);
      }
    }
  }

  lemma ReadingKeepsProgram(e: Engine, e': Engine)
    requires Shaped(e) && Programmed(e) && Enabled(e, ReadPending) && e' == Next(e, ReadPending)
    ensures Programmed(e')
  {
    assert Ordered(e, e.offerer.u);
  }

  lemma VisitingKeepsProgram(e: Engine, step: Step, e': Engine)
    requires Programmed(e) && Enabled(e, step) && e' == Next(e, step) && (step.Withhold? || step.Count? || step.Begin?)
    ensures Programmed(e')
  {
  }

  lemma RegisteringKeepsProgram(e: Engine, e': Engine)
    requires Programmed(e) && e' == Next(e, Register)
    ensures Programmed(e')
  {
  }

  lemma TurningKeepsProgram(e: Engine, step: Step, e': Engine)
    requires Programmed(e) && Enabled(e, step) && e' == Next(e, step)
    requires step.Admit? || step.Pause? || step.Stop? || step.EndRows? || step.BeginScan? || step.EndScan?
             || step.GiveUp? || step.ScanRaises?
    ensures Programmed(e')
  {
  }

  lemma OffererStepKeepsProgram(e: Engine, step: Step, e': Engine)
    requires Shaped(e) && Programmed(e) && Enabled(e, step) && e' == Next(e, step)
    requires !OfUserThread(step) && !step.Close? && !step.Enqueue?
    ensures Programmed(e')
  {
    if step.ReadPending? {
      ReadingKeepsProgram(e, e');
    } else if step.Withhold? || step.Count? || step.Begin? {
      VisitingKeepsProgram(e, step, e');
    } else if step.Register? {
      RegisteringKeepsProgram(e, e');
    } else {
      TurningKeepsProgram(e, step, e');
    }
  }

  lemma OffererStepKeepsInv(e: Engine, step: Step, e': Engine)
    requires Inv(e) && Enabled(e, step) && e' == Next(e, step)
    requires !OfUserThread(step) && !step.Close? && !step.Enqueue?
    ensures Inv(e')
  {
    OffererStepKeepsShape(e, step, e');
    OffererStepKeepsProgram(e, step, e');
  }

  lemma UserStepKeepsInv(e: Engine, step: Step, e': Engine)
    requires Inv(e) && Enabled(e, step) && OfUserThread(step) && e' == Next(e, step)
    ensures Inv(e')
  {
    UserStepKeepsShape(e, step);
    UserStepKeepsProgram(e, step);
  }

  lemma EnqueueKeepsInv(e: Engine, e': Engine)
    requires Inv(e) && Enabled(e, Enqueue) && e' == Next(e, Enqueue)
    ensures Inv(e')
  {
    EnqueueKeepsShape(e);
  }

  lemma StepKeepsInv(e: Engine, step: Step, e': Engine)
    requires Inv(e) && Enabled(e, step) && e' == Next(e, step)
    ensures Inv(e')
  {
    if step.Close? {
      CloseKeepsInv(e, e');
    } else if step.Enqueue? {
      EnqueueKeepsInv(e, e');
    } else if OfUserThread(step) {
      UserStepKeepsInv(e, step, e');
    } else {
      OffererStepKeepsInv(e, step, e');
    }
  }

  lemma {:induction false} RunKeepsInv(e: Engine, steps: seq<Step>)
    requires Inv(e) && AllSettled(e.windows) && Feasible(e, steps)
    ensures Inv(After(e, steps)) && AllSettled(After(e, steps).windows)
    decreases |steps|
  {
    if steps != [] {
      StepKeepsInv(e, steps[0], Next(e, steps[0]));
      StepKeepsSettled(e, steps[0], Next(e, steps[0]));
      RunKeepsInv(Next(e, steps[0]), steps[1..]);
    }
  }

  /** In every interleaving, every window that closed accounts for every call it
      offered, once, as completed or as crashed; so it completed what it offered exactly
      if none of its calls crashed. The rows it visited were offered or withheld, and all
      its rows were visited unless stopped. */
  lemma ClosedWindowsSettle(users: nat, steps: seq<Step>)
    requires Feasible(NewEngine(users), steps)
    ensures forall w <- After(NewEngine(users), steps).windows ::
              && Settled(w)
              && (|w.calls| == |w.offered| <==> w.crashed == [])
              && |w.calls| + |w.crashed| + w.play.withheld == w.play.i <= |w.play.rows|
              && (!w.play.stopped ==> |w.calls| + |w.crashed| + w.play.withheld == |w.play.rows|)
  {
    RunKeepsInv(NewEngine(users), steps);
    forall w <- After(NewEngine(users), steps).windows ensures Settled(w) {
      SettledOne(After(NewEngine(users), steps).windows, w);
    }
  }

  /** A drain that succeeds is right, in every interleaving: nothing waits, nothing is
      on the wire, and no user thread has a call left to sign off. */
  lemma DrainIsSound(users: nat, steps: seq<Step>)
    requires Feasible(NewEngine(users), steps) && After(NewEngine(users), steps).offerer.Drained?
    ensures var e := After(NewEngine(users), steps);
            && |e.stages| == Users(e)
            && forall u :: 0 <= u < Users(e) ==> e.queues[u] == [] && (e.stages[u].Free? || e.stages[u].Dead?)
  {
    RunKeepsInv(NewEngine(users), steps);
    var e := After(NewEngine(users), steps);
    DrainedIsQuiet(e);
    forall u | 0 <= u < Users(e) ensures e.queues[u] == [] && (e.stages[u].Free? || e.stages[u].Dead?) {
      assert Quiet(e, u);
    }
  }

  function OnlyPlay(phase: string): Play {
    Play(phase, [0], 1, 0, false)
  }

  /** One user, and its one call on the wire, the only row having been offered. */
  function OnTheWire(phase: string): Engine {
    Engine([[]], [Taken(Item(0, phase))], [1], 1, 0, 0, [], {0}, Polling(OnlyPlay(phase)),
           [Call(0, Item(0, phase))], [], [])
  }

  /** Before the call is taken: counted or not, queued or not. */
  function BeforeTheCall(phase: string, offered: nat, waiting: seq<Item>, offerer: Offerer): Engine {
    Engine([waiting], [Free], [|waiting|], offered, 0, 0, [], {0}, offerer,
           if waiting == [] then [] else [Call(0, waiting[0])], [], [])
  }

  lemma GetsOffered(phase: string)
    ensures var steps := [Admit(0), Begin(phase, [0]), Count];
            && Feasible(NewEngine(1), steps)
            && After(NewEngine(1), steps) == BeforeTheCall(phase, 1, [], Counted(Play(phase, [0], 0, 0, false)))
  {
    var play := Play(phase, [0], 0, 0, false);
    var e0 := NewEngine(1);
    var e1, e2 := BeforeTheCall(phase, 0, [], Resting), BeforeTheCall(phase, 0, [], Offering(play));
    assert e0.queues == e1.queues && e0.stages == e1.stages && e0.unfinished == e1.unfinished;
    assert Next(e0, Admit(0)) == e1 && Next(e1, Begin(phase, [0])) == e2;
    Along(e2, [Count]);
    Along(e1, [Begin(phase, [0]), Count]);
    Along(e0, [Admit(0), Begin(phase, [0]), Count]);
  }

  lemma GetsQueued(phase: string)
    ensures var e := BeforeTheCall(phase, 1, [], Counted(Play(phase, [0], 0, 0, false)));
            Enabled(e, Enqueue) &&
            Next(e, Enqueue) == BeforeTheCall(phase, 1, [Item(0, phase)], Offering(OnlyPlay(phase)))
  {
    var e := BeforeTheCall(phase, 1, [], Counted(Play(phase, [0], 0, 0, false)));
    var e' := BeforeTheCall(phase, 1, [Item(0, phase)], Offering(OnlyPlay(phase)));
    var next := Next(e, Enqueue);
    assert next.queues[0] == [Item(0, phase)] && next.unfinished[0] == 1;
    assert next.queues == e'.queues && next.unfinished == e'.unfinished && next.log == e'.log;
  }

  lemma GetsTaken(phase: string)
    ensures var steps := [Enqueue, EndRows, Take(0)];
            var e := BeforeTheCall(phase, 1, [], Counted(Play(phase, [0], 0, 0, false)));
            Feasible(e, steps) && After(e, steps) == OnTheWire(phase)
  {
    GetsQueued(phase);
    var e4 := BeforeTheCall(phase, 1, [Item(0, phase)], Offering(OnlyPlay(phase)));
    var e5 := e4.(offerer := Polling(OnlyPlay(phase)));
    assert Next(e4, EndRows) == e5;
    var taken := Next(e5, Take(0));
    assert taken.queues[0] == [];
    assert taken.queues == OnTheWire(phase).queues && taken.stages == OnTheWire(phase).stages;
    Along(e5, [Take(0)]);
    Along(e4, [EndRows, Take(0)]);
    Along(BeforeTheCall(phase, 1, [], Counted(Play(phase, [0], 0, 0, false))), [Enqueue, EndRows, Take(0)]);
  }

  /** A window of one offered call that crashed. */
  predicate ClosedShort(e: Engine) {
    && e.offered == 1 && e.completed == 0
    && |e.windows| == 1 && |e.windows[0].offered| == 1 && e.windows[0].calls == []
  }

  lemma GetsSignedOff(phase: string)
    ensures var steps := [Crash(0), BeginScan, ReadPending, EndScan, Close];
            Feasible(OnTheWire(phase), steps) && ClosedShort(After(OnTheWire(phase), steps))
  {
    var e6, c := OnTheWire(phase), Call(0, Item(0, phase));
    var e7 := e6.(stages := [Dead], unfinished := [0], crashed := [c]);
    var e8 := e7.(offerer := Scanning(OnlyPlay(phase), 0, 0, 1));
    var e9 := e8.(offerer := Scanning(OnlyPlay(phase), 1, 0, 1));
    var e10 := e9.(offerer := Drained(OnlyPlay(phase)));
    assert Next(e6, Crash(0)) == e7 && Next(e7, BeginScan) == e8;
    assert Next(e8, ReadPending) == e9 && Next(e9, EndScan) == e10;
    Along(e10, [Close]);
    Along(e9, [EndScan, Close]);
    Along(e8, [ReadPending, EndScan, Close]);
    Along(e7, [BeginScan, ReadPending, EndScan, Close]);
    Along(e6, [Crash(0), BeginScan, ReadPending, EndScan, Close]);
  }

  /** A call that raises is signed off all the same: from a fresh engine of one user and
      one row, the drain passes and the window closes short of its only call. */
  lemma ACrashIsSignedOff(phase: string)
    ensures var steps := [Admit(0), Begin(phase, [0]), Count] + [Enqueue, EndRows, Take(0)]
                         + [Crash(0), BeginScan, ReadPending, EndScan, Close];
            Feasible(NewEngine(1), steps) && ClosedShort(After(NewEngine(1), steps))
  {
    GetsOffered(phase);
    GetsTaken(phase);
    GetsSignedOff(phase);
    var first, second := [Admit(0), Begin(phase, [0]), Count], [Enqueue, EndRows, Take(0)];
    OneAfterTheOther(NewEngine(1), first, second);
    OneAfterTheOther(NewEngine(1), first + second, [Crash(0), BeginScan, ReadPending, EndScan, Close]);
  }

  lemma StepsTogether(a: seq<Step>, b: seq<Step>)
    requires a != []
    ensures (a + b)[0] == a[0] && (a + b)[1..] == a[1..] + b
  {
  }

  lemma {:induction false} OneAfterTheOther(e: Engine, a: seq<Step>, b: seq<Step>)
    requires Feasible(e, a) && Feasible(After(e, a), b)
    ensures Feasible(e, a + b) && After(e, a + b) == After(After(e, a), b)
    decreases |a|
  {
    if a == [] {
      assert a + b == b;
    } else {
      OneAfterTheOther(Next(e, a[0]), a[1..], b);
      StepsTogether(a, b);
      Along(e, a + b);
    }
  }

  lemma Along(e: Engine, steps: seq<Step>)
    requires steps != [] && Enabled(e, steps[0]) && Feasible(Next(e, steps[0]), steps[1..])
    ensures Feasible(e, steps) && After(e, steps) == After(Next(e, steps[0]), steps[1..])
  {
  }

  lemma StepLeavesTheDead(e: Engine, step: Step, u: User)
    requires Enabled(e, step) && u < |e.stages| && u < |e.queues| && e.stages[u].Dead? && !e.offerer.Drained?
    ensures var e' := Next(e, step);
            && u < |e'.stages| && e'.stages[u].Dead? && u < |e'.queues| && e.queues[u] <= e'.queues[u]
            && e'.windows == e.windows
  {
  }

  lemma DeadQueuesArePending(e: Engine, u: User)
    requires Inv(e) && u < Users(e) && u < |e.stages| && e.stages[u].Dead? && e.queues[u] != []
    ensures !e.offerer.Drained?
  {
    assert Ordered(e, u);
  }

  /** What waits for a thread that died waits for good: no drain passes any more, and no
      window closes. */
  lemma {:induction false} NobodyServesTheDead(e: Engine, steps: seq<Step>, u: User)
    requires Inv(e) && Feasible(e, steps)
    requires u < Users(e) && u < |e.stages| && e.stages[u].Dead? && e.queues[u] != []
    ensures var after := After(e, steps);
            && u < |after.queues| && e.queues[u] <= after.queues[u]
            && !after.offerer.Drained? && after.windows == e.windows
    decreases |steps|
  {
    DeadQueuesArePending(e, u);
    if steps != [] {
      StepLeavesTheDead(e, steps[0], u);
      StepKeepsInv(e, steps[0], Next(e, steps[0]));
      NobodyServesTheDead(Next(e, steps[0]), steps[1..], u);
    }
  }

  /** A user registered while a scan runs breaks it: the scan can only raise, and no
      window closes any more. */
  lemma {:induction false} RegistrationBreaksTheScan(e: Engine, steps: seq<Step>)
    requires Feasible(e, steps)
    requires e.offerer.Raised? || (e.offerer.Scanning? && e.offerer.of < |e.unfinished|)
    ensures After(e, steps).windows == e.windows && !After(e, steps).offerer.Drained?
    decreases |steps|
  {
    if steps != [] {
      RegistrationBreaksTheScan(Next(e, steps[0]), steps[1..]);
    }
  }

  /* ---------------- conservation ---------------- */

  function TotalQueued(queues: seq<seq<Item>>): nat {
    if queues == [] then 0 else TotalQueued(queues[..|queues| - 1]) + |queues[|queues| - 1]|
  }

  function TotalInFlight(stages: seq<Stage>): nat {
    if stages == [] then 0 else TotalInFlight(stages[..|stages| - 1]) + |InFlight(stages[|stages| - 1])|
  }

  /** How many of these calls are of the first `users` users. */
  function Share(calls: seq<Call>, users: nat): nat {
    if users == 0 then 0 else Share(calls, users - 1) + |OfUser(calls, users - 1)|
  }

  lemma {:induction false} ShareAppend(calls: seq<Call>, c: Call, users: nat)
    ensures Share(calls + [c], users) == Share(calls, users) + if c.user < users then 1 else 0
  {
    if users > 0 {
      ShareAppend(calls, c, users - 1);
      OfUserAppend(calls, c, users - 1);
    }
  }

  lemma {:induction false} ShareOfNothing(users: nat)
    ensures Share([], users) == 0
  {
    if users > 0 {
      ShareOfNothing(users - 1);
    }
  }

  lemma {:induction false} ShareIsAll(calls: seq<Call>, users: nat)
    requires forall c <- calls :: c.user < users
    ensures Share(calls, users) == |calls|
  {
    if calls == [] {
      ShareOfNothing(users);
    } else {
      var front, last := calls[..|calls| - 1], calls[|calls| - 1];
      assert last in calls;
      ShareIsAll(front, users);
      ShareAppend(front, last, users);
      assert calls == front + [last];
    }
  }

  lemma ShareOfOne(e: Engine, u: User)
    requires Shaped(e) && u < Users(e)
    ensures |OfUser(e.log, u)| == |OfUser(e.calls, u)| + |OfUser(e.crashed, u)| + |InFlight(e.stages[u])| + |e.queues[u]|
  {
    assert Ordered(e, u);
  }

  lemma TotalsUpTo(queues: seq<seq<Item>>, stages: seq<Stage>, n: nat)
    requires 0 < n <= |queues| && n <= |stages|
    ensures TotalQueued(queues[..n]) == TotalQueued(queues[..n - 1]) + |queues[n - 1]|
    ensures TotalInFlight(stages[..n]) == TotalInFlight(stages[..n - 1]) + |InFlight(stages[n - 1])|
  {
    assert stages[..n][..n - 1] == stages[..n - 1];
    assert queues[..n][..n - 1] == queues[..n - 1];
  }

  lemma {:induction false} SharesAddUp(e: Engine, n: nat)
    requires Shaped(e) && n <= Users(e)
    ensures Share(e.log, n) == Share(e.calls, n) + Share(e.crashed, n)
                               + TotalInFlight(e.stages[..n]) + TotalQueued(e.queues[..n])
  {
    if n > 0 {
      SharesAddUp(e, n - 1);
      ShareOfOne(e, n - 1);
      TotalsUpTo(e.queues, e.stages, n);
    }
  }

  lemma LogAddsUp(e: Engine)
    requires Shaped(e)
    ensures |e.log| == |e.calls| + |e.crashed| + TotalInFlight(e.stages) + TotalQueued(e.queues)
  {
    SharesAddUp(e, Users(e));
    assert e.stages[..Users(e)] == e.stages && e.queues[..Users(e)] == e.queues;
    ShareIsAll(e.log, Users(e));
    ShareIsAll(e.calls, Users(e));
    ShareIsAll(e.crashed, Users(e));
  }

  /** At every moment of every interleaving, what has been offered is what is being
      handed over, what waits in a queue, what is on the wire, what is completed and what
      crashed; and every completed call is in one closed window or in none yet. */
  lemma OfferedIsConserved(users: nat, steps: seq<Step>)
    requires Feasible(NewEngine(users), steps)
    ensures var e := After(NewEngine(users), steps);
            && e.offered == (if e.offerer.Counted? then 1 else 0) + TotalQueued(e.queues) + TotalInFlight(e.stages)
                            + e.completed + Crashed(e.windows) + |e.crashed|
            && e.completed == Completed(e.windows) + |e.calls|
  {
    RunKeepsInv(NewEngine(users), steps);
    var e := After(NewEngine(users), steps);
    LogAddsUp(e);
    SettledWindowsBalance(e.windows);
  }

  /** And so it is for the window in play alone: what it queued is queued, on the wire,
      completed or crashed, and the completed calls that no window has yet are its own. */
  lemma PhaseIsConserved(users: nat, steps: seq<Step>)
    requires Feasible(NewEngine(users), steps) && !After(NewEngine(users), steps).offerer.Resting?
    ensures var e := After(NewEngine(users), steps);
            && |e.log| == TotalQueued(e.queues) + TotalInFlight(e.stages) + |e.calls| + |e.crashed|
            && |e.log| + e.offerer.play.withheld == e.offerer.play.i
            && forall c <- e.calls :: c.item.phase == e.offerer.play.phase
  {
    RunKeepsInv(NewEngine(users), steps);
    LogAddsUp(After(NewEngine(users), steps));
    CallsAreOfThePhase(After(NewEngine(users), steps));
  }

  lemma {:induction false} SettledWindowsBalance(windows: seq<Settlement>)
    requires AllSettled(windows)
    ensures Offered(windows) == Completed(windows) + Crashed(windows)
  {
    if windows != [] {
      SettledWindowsBalance(windows[..|windows| - 1]);
    }
  }

  lemma OrderOf(e: Engine, u: User)
    requires Shaped(e) && u < Users(e)
    ensures |e.stages| == Users(e)
    ensures OfUser(e.log, u) == OfUser(e.calls, u) + OfUser(e.crashed, u) + InFlight(e.stages[u]) + e.queues[u]
    ensures |OfUser(e.crashed, u)| + |InFlight(e.stages[u])| <= 1
  {
    assert Ordered(e, u);
  }

  /** In every interleaving each user has what it was offered in order: completed
      first, then one call that killed its thread or at most one on the wire, then the
      queue. */
  lemma UsersRunInOrder(users: nat, steps: seq<Step>, u: User)
    requires Feasible(NewEngine(users), steps) && u < Users(After(NewEngine(users), steps))
    ensures var e := After(NewEngine(users), steps);
            && |e.stages| == Users(e)
            && OfUser(e.log, u) == OfUser(e.calls, u) + OfUser(e.crashed, u) + InFlight(e.stages[u]) + e.queues[u]
            && |OfUser(e.crashed, u)| + |InFlight(e.stages[u])| <= 1
  {
    RunKeepsInv(NewEngine(users), steps);
    OrderOf(After(NewEngine(users), steps), u);
  }

  /** A drain that gives up closes no window. */
  lemma {:induction false} TimedOutStays(e: Engine, steps: seq<Step>)
    requires Feasible(e, steps) && e.offerer.TimedOut?
    ensures After(e, steps).windows == e.windows && After(e, steps).offered == e.offered
    decreases |steps|
  {
    if steps != [] {
      TimedOutStays(Next(e, steps[0]), steps[1..]);
    }
  }
}
