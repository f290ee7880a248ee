/** The global store under many threads: what a block is shielded from, and that nobody
    waits in vain. */
module GlobalStoreProgress {
  import opened Wrappers
  import opened GlobalStore
  import opened LegacyBag
  import opened GlobalStoreRuns

  /* ---------------- isolation and progress ---------------- */

  /** While a thread is in a block no other thread moves the master, and none touches
      the private copy; the block's reads are of its own writes over that master; and
      its thread is never among those who wait for the lock it holds. */
  lemma BlockIsIsolated(d: Dict, threads: nat, steps: seq<Step>, t: Thread, step: Step, call: Call, site: Site)
    requires Feasible(Start(d, threads), steps, site)
    requires var s := After(Start(d, threads), steps, site);
             t < |s.modes| && s.modes[t].InBlock? && Enabled(s, step) && step.t != t
    ensures var s := After(Start(d, threads), steps, site);
            var s' := Next(s, step, site);
            && s'.master == s.master && s'.log == s.log && s'.modes[t] == s.modes[t]
            && AnswerOf(s.modes[t].copy, call, site)
               == AnswerOf(AllCalls(s.master, s.modes[t].calls, site), call, site)
            && t !in s.queue && t !in s'.queue
  {
    var s := After(Start(d, threads), steps, site);
    RunKeepsInv(Start(d, threads), steps, d, site);
    StepKeepsInv(s, step, d, site);
    assert s.holder == Some(t);
    assert !Holds(s.modes[step.t]);
  }

  /** Whatever the threads do, the thread itself not closing its block. */
  predicate StaysInside(steps: seq<Step>, t: Thread) {
    forall step <- steps :: !(step.Close? && step.t == t)
  }

  /** From one state to the other the thread stayed in its block and made these calls. */
  predicate Carried(s: State, s': State, t: Thread, calls: seq<Call>) {
    && t < |s.modes| && s.modes[t].InBlock? && t < |s'.modes| && s'.modes[t].InBlock?
    && s'.master == s.master && s'.log == s.log && s'.modes[t].calls == s.modes[t].calls + calls
  }

  lemma CarriedOn(a: State, b: State, c: State, t: Thread, some: seq<Call>, more: seq<Call>)
    requires Carried(a, b, t, some) && Carried(b, c, t, more)
    ensures Carried(a, c, t, some + more)
  {
  }

  function CallBy(step: Step, t: Thread): seq<Call> {
    if step.CallInside? && step.t == t then [step.call] else []
  }

  /** What the thread does in its block: its calls; nested opens leave no trace. */
  function CallsBy(steps: seq<Step>, t: Thread): seq<Call> {
    if steps == [] then [] else CallBy(steps[0], t) + CallsBy(steps[1..], t)
  }

  lemma StepInside(s: State, step: Step, t: Thread, site: Site)
    requires Exclusive(s) && Enabled(s, step) && t < |s.modes| && s.modes[t].InBlock?
    requires !(step.Close? && step.t == t)
    ensures Carried(s, Next(s, step, site), t, CallBy(step, t))
  {
    assert Holds(s.modes[t]);
    assert s.holder == Some(t);
    assert step.t != t ==> !Holds(s.modes[step.t]);
  }

  lemma {:induction false} BlockOverARun(s: State, steps: seq<Step>, t: Thread, d: Dict, site: Site)
    requires Inv(s, d, site) && Feasible(s, steps, site) && t < |s.modes| && s.modes[t].InBlock?
    requires StaysInside(steps, t)
    ensures Carried(s, After(s, steps, site), t, CallsBy(steps, t))
    decreases |steps|
  {
    if steps != [] {
      var step, s' := steps[0], Next(s, steps[0], site);
      assert step in steps;
      StepInside(s, step, t, site);
      StepKeepsInv(s, step, d, site);
      BlockOverARun(s', steps[1..], t, d, site);
      CarriedOn(s, s', After(s', steps[1..], site), t, CallBy(step, t), CallsBy(steps[1..], t));
    }
  }

  /** However a block goes on, nested opens and other threads' attempts included, its
      close leaves the thread no lease and the lock free for the first in line; and the
      master is as the block found it, or with the block's own calls, all of them and
      nothing else, published on it. */
  lemma CloseEndsTheTurn(d: Dict, threads: nat, before: seq<Step>, steps: seq<Step>, t: Thread,
                         raised: bool, landed: bool, site: Site)
    requires Feasible(Start(d, threads), before, site)
    requires var s := After(Start(d, threads), before, site);
             && t < |s.modes| && s.modes[t].InBlock? && Feasible(s, steps, site) && StaysInside(steps, t)
    ensures var s := After(Start(d, threads), before, site);
            var inside := After(s, steps, site);
            && Enabled(inside, Close(t, raised, landed))
            && var after := Next(inside, Close(t, raised, landed), site);
               && after.modes[t].Idle? && after.holder == None
               && (after.queue != [] ==> Enabled(after, Grant(after.queue[0])))
               && after.master == if raised || !landed then s.master
                                  else WireAll(AllCalls(s.master, s.modes[t].calls + CallsBy(steps, t), site), site)
  {
    var s := After(Start(d, threads), before, site);
    RunKeepsInv(Start(d, threads), before, d, site);
    BlockOverARun(s, steps, t, d, site);
    RunKeepsInv(s, steps, d, site);
    ClosingHandsOver(After(s, steps, site), t, raised, landed, d, site);
  }

  lemma ClosingHandsOver(s: State, t: Thread, raised: bool, landed: bool, d: Dict, site: Site)
    requires Inv(s, d, site) && t < |s.modes| && s.modes[t].InBlock?
    ensures Enabled(s, Close(t, raised, landed))
    ensures var after := Next(s, Close(t, raised, landed), site);
            && after.modes[t].Idle? && after.holder == None
            && (after.queue != [] ==> Enabled(after, Grant(after.queue[0])))
            && after.master == if raised || !landed then s.master else WireAll(AllCalls(s.master, s.modes[t].calls, site), site)
  {
    assert InStep(s.master, s.modes[t], site);
    if s.queue != [] {
      assert s.queue[0] in s.queue;
    }
  }

  /** The step that brings the next request closer to its turn. */
  function Forward(s: State): Step
    requires s.queue != []
  {
    match s.holder
    case None => Grant(s.queue[0])
    case Some(t) =>
      if t >= |s.modes| || s.modes[t].InBlock? then Close(t, false, true)
      else if s.modes[t].Serving? && Keyed(s.modes[t].call) && !s.modes[t].worked then WorkOn(t)
      else Release(t, Landed)
  }

  lemma ForwardIsEnabled(s: State, d: Dict, site: Site)
    requires Inv(s, d, site) && s.queue != []
    ensures Enabled(s, Forward(s)) && Moves(Forward(s))
  {
    assert s.queue[0] in s.queue;
    if s.holder.Some? {
      assert Holds(s.modes[s.holder.value]);
    }
  }

  /** In every reachable state where somebody waits, the holder can finish, or the first
      in line can be let in. */
  lemma NeverStuck(d: Dict, threads: nat, steps: seq<Step>, site: Site)
    requires Feasible(Start(d, threads), steps, site)
    requires After(Start(d, threads), steps, site).queue != []
    ensures var s := After(Start(d, threads), steps, site); Enabled(s, Forward(s)) && Moves(Forward(s))
  {
    RunKeepsInv(Start(d, threads), steps, d, site);
    ForwardIsEnabled(After(Start(d, threads), steps, site), d, site);
  }

  predicate Moves(step: Step) {
    step.Grant? || step.WorkOn? || step.Release? || step.Close?
  }

  /** The steps by which the lock is handed on: let in, work, and let go. */
  function Progress(steps: seq<Step>): nat {
    if steps == [] then 0 else (if Moves(steps[0]) then 1 else 0) + Progress(steps[1..])
  }

  /** How many such steps the holder still owes. */
  function Debt(s: State): nat {
    match s.holder
    case None => 0
    case Some(t) =>
      if t < |s.modes| && s.modes[t].Serving? && Keyed(s.modes[t].call) && !s.modes[t].worked then 2 else 1
  }

  function PlaceOf(queue: seq<Thread>, t: Thread): (i: nat)
    requires t in queue
    ensures i < |queue| && queue[i] == t
  {
    if queue[0] == t then 0 else 1 + PlaceOf(queue[1..], t)
  }

  lemma {:induction false} PlaceAfterAnotherLeaves(queue: seq<Thread>, t: Thread, u: Thread)
    requires t in queue && t != u
    ensures PlaceOf(Without(queue, u), t) <= PlaceOf(queue, t)
  {
    if queue[0] != t {
      PlaceAfterAnotherLeaves(queue[1..], t, u);
    }
  }

  lemma {:induction false} PlaceInFront(queue: seq<Thread>, t: Thread, more: seq<Thread>)
    requires t in queue
    ensures PlaceOf(queue + more, t) == PlaceOf(queue, t)
  {
    if queue[0] != t {
      PlaceInFront(queue[1..], t, more);
      assert (queue + more)[1..] == queue[1..] + more;
    }
  }

  function Ahead(s: State, t: Thread): nat
    requires t in s.queue
  {
    3 * PlaceOf(s.queue, t) + Debt(s)
  }

  /** The holder's own steps pay its debt off. */
  lemma HolderPays(s: State, step: Step, site: Site)
    requires Exclusive(s) && Enabled(s, step) && (step.WorkOn? || step.Release? || step.Close?)
    ensures var s' := Next(s, step, site); s'.queue == s.queue && Debt(s') + 1 <= Debt(s)
  {
    assert Holds(s.modes[step.t]);
  }

  /** A grant to another takes it out of the line and brings a debt of two at most. */
  lemma GrantPays(s: State, u: Thread, t: Thread, site: Site)
    requires Enabled(s, Grant(u)) && t in s.queue && t != u
    ensures var s' := Next(s, Grant(u), site); t in s'.queue && Ahead(s', t) + 1 <= Ahead(s, t)
  {
    assert s.queue == [u] + s.queue[1..];
  }

  lemma WaitingCostsNothing(s: State, step: Step, t: Thread, site: Site)
    requires Exclusive(s) && Queued(s) && Enabled(s, step) && t in s.queue
    requires !Moves(step) && step != GiveUp(t)
    ensures var s' := Next(s, step, site); t in s'.queue && Ahead(s', t) <= Ahead(s, t)
  {
    match step {
      case Ask(u, _) => PlaceInFront(s.queue, t, [u]);
      case GiveUp(u) => PlaceAfterAnotherLeaves(s.queue, t, u);
      case _ =>
    }
  }

  lemma StepPaysOff(s: State, step: Step, t: Thread, d: Dict, site: Site)
    requires Inv(s, d, site) && Enabled(s, step) && t in s.queue && step != Grant(t) && step != GiveUp(t)
    ensures var s' := Next(s, step, site);
            t in s'.queue && Ahead(s', t) + (if Moves(step) then 1 else 0) <= Ahead(s, t)
  {
    if step.Grant? {
      GrantPays(s, step.t, t, site);
    } else if Moves(step) {
      HolderPays(s, step, site);
    } else {
      WaitingCostsNothing(s, step, t, site);
    }
  }

  /** First in, first out, on every run from every reachable state: as long as a request
      waits, the lock is handed on at most three times for each other that stood before
      it, and as often as the holder owes. So it is served as soon as blocks end, their
      calls and everybody's asking and giving up notwithstanding. */
  lemma WaitIsBounded(d: Dict, threads: nat, before: seq<Step>, steps: seq<Step>, t: Thread, site: Site)
    requires Feasible(Start(d, threads), before, site)
    requires var s := After(Start(d, threads), before, site);
             t in s.queue && Feasible(s, steps, site) && Grant(t) !in steps && GiveUp(t) !in steps
    ensures var s := After(Start(d, threads), before, site); Progress(steps) <= Ahead(s, t)
  {
    RunKeepsInv(Start(d, threads), before, d, site);
    ServedInTurn(After(Start(d, threads), before, site), steps, t, d, site);
  }

  lemma {:induction false} ServedInTurn(s: State, steps: seq<Step>, t: Thread, d: Dict, site: Site)
    requires Inv(s, d, site) && Feasible(s, steps, site) && t in s.queue
    requires Grant(t) !in steps && GiveUp(t) !in steps
    ensures Progress(steps) <= Ahead(s, t)
    decreases |steps|
  {
    if steps != [] {
      assert steps[0] in steps;
      StepPaysOff(s, steps[0], t, d, site);
      StepKeepsInv(s, steps[0], d, site);
      ServedInTurn(Next(s, steps[0], site), steps[1..], t, d, site);
    }
  }

  /** And the bound can be met: some run of no more than these steps, and the grant,
      serves the request, whoever else waits. */
  lemma {:induction false} SomeRunServes(s: State, t: Thread, d: Dict, site: Site) returns (steps: seq<Step>)
    requires Inv(s, d, site) && t in s.queue
    ensures Feasible(s, steps, site) && |steps| <= Ahead(s, t) && (forall step <- steps :: Moves(step))
    ensures Enabled(After(s, steps, site), Grant(t))
    decreases Ahead(s, t)
  {
    ForwardIsEnabled(s, d, site);
    var step := Forward(s);
    if step == Grant(t) {
      steps := [];
    } else {
      StepPaysOff(s, step, t, d, site);
      StepKeepsInv(s, step, d, site);
      var rest := SomeRunServes(Next(s, step, site), t, d, site);
      steps := [step] + rest;
      assert steps[1..] == rest;
    }
  }
}
