/** The commander's dictionary under any number of threads. Every access waits for
    one FIFO lock; a call of its own is served and lets go, a block keeps the lock
    until it closes. A run is any interleaving of the steps below.

    The commander and its store client are not part of the repository. What is taken
    for granted of them is what the adapter relies on: the lock is exclusive and
    FIFO, a lease is a private copy, a clean exit publishes it, an abort or a raising
    body publishes nothing, and a nested block is refused. */
module GlobalStoreRuns {
  import opened Wrappers
  import opened LegacyBag
  import opened GlobalPaths
  import opened GlobalStore
  import DottedBag

  type Thread = nat

  datatype Call = Read(path: string, default: Value) | Change(write: Write) | Snapshot

  datatype Answer = Done | ValueError | Failed | Found(value: Value) | Whole(face: Dict)

  function AnswerOf(d: Dict, call: Call, site: Site): Answer {
    match call
    case Read(path, default) =>
      if path == "" then Whole(LegacyDict(d, site)) else Found(ReadIn(d, path, default, site))
    case Change(w) => if w.path == "" then ValueError else Done
    case Snapshot => Whole(LegacyDict(d, site))
  }

  /** What becomes of a call on its way out: applied and answered; applied, the answer
      lost; or not applied at all. */
  datatype Commit = Landed | Unconfirmed | Lost

  /** A write without a path is refused before it is sent. */
  function Heard(d: Dict, call: Call, commit: Commit, site: Site): Answer {
    var answer := AnswerOf(d, call, site);
    if commit.Landed? || answer == ValueError then answer else Failed
  }

  function AfterDirect(d: Dict, call: Call, site: Site): Dict {
    if call.Change? then ApplyDirect(d, call.write, site) else d
  }

  function AfterInBlock(d: Dict, call: Call, site: Site): Dict {
    if call.Change? then ApplyInBlock(d, call.write, site) else d
  }

  function AllCalls(d: Dict, calls: seq<Call>, site: Site): Dict {
    if calls == [] then d
    else AfterInBlock(AllCalls(d, calls[..|calls| - 1], site), calls[|calls| - 1], site)
  }

  function AllAnswers(d: Dict, calls: seq<Call>, site: Site): seq<Answer> {
    if calls == [] then []
    else
      var front := calls[..|calls| - 1];
      AllAnswers(d, front, site) + [AnswerOf(AllCalls(d, front, site), calls[|calls| - 1], site)]
  }

  /* ---------------- a keyed turn ---------------- */

  /** What a keyed turn holds: the key as it stood, and what its body makes of it. */
  datatype Lease = Lease(present: bool, value: Value, aborted: bool)

  function Take(d: Dict, key: string): Lease {
    Lease(key in d, if key in d then d[key] else Null, false)
  }

  /** The body of a subpath write or delete: read, modify, and leave in the lease. */
  function Work(lease: Lease, w: Write, site: Site): Lease {
    match w
    case Set(path, value) =>
      var nodes := if lease.present && lease.value.Bag? then lease.value.nodes else [];
      lease.(value := Bag(SetItem(nodes, Labels(Rest(path), site), value)))
    case Delete(path) =>
      if !lease.present || !lease.value.Bag? then lease.(aborted := true)
      else lease.(value := Bag(DelItem(lease.value.nodes, Labels(Rest(path), site))))
  }

  function Publish(d: Dict, key: string, lease: Lease): Dict {
    if lease.aborted then d else d[key := lease.value]
  }

  predicate Keyed(call: Call) {
    call.Change? && call.write.path != "" && Rest(call.write.path) != ""
  }

  /** A turn that works on the key as the master holds it does what the write means. */
  lemma TurnIsTheWrite(d: Dict, call: Call, site: Site)
    requires Keyed(call)
    ensures var key := Key(call.write.path);
            Publish(d, key, Work(Take(d, key), call.write, site)) == AfterDirect(d, call, site)
  {
  }

  /* ---------------- the machine ---------------- */

  datatype Request = One(call: Call) | Open

  datatype Mode =
    | Idle
    | Waiting(request: Request)
    | Serving(call: Call, lease: Lease, worked: bool)
    | InBlock(copy: Dict, calls: seq<Call>, answers: seq<Answer>)

  datatype Entry =
    | Single(thread: Thread, call: Call, answer: Answer, commit: Commit)
    | Block(thread: Thread, calls: seq<Call>, answers: seq<Answer>, committed: bool)

  /** `log` lists the finished operations in the order they released the lock. */
  datatype State = State(master: Dict, holder: Option<Thread>, queue: seq<Thread>,
                         modes: seq<Mode>, log: seq<Entry>)

  datatype Step =
    | Ask(t: Thread, request: Request)
    | GiveUp(t: Thread)
    | Grant(t: Thread)
    | WorkOn(t: Thread)
    | Release(t: Thread, commit: Commit)
    | CallInside(t: Thread, call: Call)
    | NestedOpen(t: Thread)
    | Close(t: Thread, raised: bool, landed: bool)

  function Without(queue: seq<Thread>, t: Thread): (r: seq<Thread>)
    ensures t !in r
    ensures forall u :: u != t ==> (u in r <==> u in queue)
    ensures |r| <= |queue|
  {
    if queue == [] then []
    else if queue[0] == t then Without(queue[1..], t)
    else [queue[0]] + Without(queue[1..], t)
  }

  predicate Enabled(s: State, step: Step) {
    && step.t < |s.modes|
    && var mode := s.modes[step.t];
       match step
       case Ask(_, _) => mode.Idle?
       case GiveUp(_) => mode.Waiting?
       case Grant(t) => s.holder == None && s.queue != [] && s.queue[0] == t && mode.Waiting?
       case WorkOn(_) => mode.Serving? && Keyed(mode.call) && !mode.worked
       case Release(_, _) => mode.Serving? && (Keyed(mode.call) ==> mode.worked)
       case CallInside(_, _) => mode.InBlock?
       case NestedOpen(_) => mode.InBlock?
       case Close(_, _, _) => mode.InBlock?
  }

  function LeaseFor(d: Dict, call: Call): Lease {
    if call.Change? then Take(d, Key(call.write.path)) else Lease(false, Null, false)
  }

  function Next(s: State, step: Step, site: Site): State
    requires Enabled(s, step)
  {
    var t, mode := step.t, s.modes[step.t];
    match step
    case Ask(_, request) => s.(queue := s.queue + [t], modes := s.modes[t := Waiting(request)])
    case GiveUp(_) => s.(queue := Without(s.queue, t), modes := s.modes[t := Idle])
    case Grant(_) =>
      s.(holder := Some(t), queue := s.queue[1..],
         modes := s.modes[t := match mode.request
                               case One(call) => Serving(call, LeaseFor(s.master, call), false)
                               case Open => InBlock(s.master, [], [])])
    case WorkOn(_) =>
      s.(modes := s.modes[t := mode.(lease := Work(mode.lease, mode.call.write, site), worked := true)])
    case Release(_, commit) =>
      s.(master := if commit.Lost? then s.master
                   else if Keyed(mode.call) then Publish(s.master, Key(mode.call.write.path), mode.lease)
                   else AfterDirect(s.master, mode.call, site),
         holder := None, modes := s.modes[t := Idle],
         log := s.log + [Single(t, mode.call, Heard(s.master, mode.call, commit, site), commit)])
    case CallInside(_, call) =>
      s.(modes := s.modes[t := InBlock(AfterInBlock(mode.copy, call, site), mode.calls + [call],
                                       mode.answers + [AnswerOf(mode.copy, call, site)])])
    case NestedOpen(_) => s
    case Close(_, raised, landed) =>
      var committed := !raised && landed;
      s.(master := if committed then WireAll(mode.copy, site) else s.master,
         holder := None, modes := s.modes[t := Idle],
         log := s.log + [Block(t, mode.calls, mode.answers, committed)])
  }

  /** A store at rest, with any dictionary and any number of threads. */
  function Start(d: Dict, threads: nat): State {
    State(d, None, [], seq(threads, _ => Idle), [])
  }

  predicate Feasible(s: State, steps: seq<Step>, site: Site)
    decreases |steps|
  {
    steps == [] || (Enabled(s, steps[0]) && Feasible(Next(s, steps[0], site), steps[1..], site))
  }

  function After(s: State, steps: seq<Step>, site: Site): State
    requires Feasible(s, steps, site)
    decreases |steps|
  {
    if steps == [] then s else After(Next(s, steps[0], site), steps[1..], site)
  }

  /* ---------------- the serial meaning ---------------- */

  function ApplyEntry(d: Dict, e: Entry, site: Site): Dict {
    match e
    case Single(_, call, _, commit) => if commit.Lost? then d else AfterDirect(d, call, site)
    case Block(_, calls, _, committed) =>
      if committed then WireAll(AllCalls(d, calls, site), site) else d
  }

  function Replay(d: Dict, log: seq<Entry>, site: Site): Dict {
    if log == [] then d else ApplyEntry(Replay(d, log[..|log| - 1], site), log[|log| - 1], site)
  }

  /** Every answer is the one a thread alone with the replayed dictionary would get. */
  predicate Answered(d: Dict, e: Entry, site: Site) {
    match e
    case Single(_, call, answer, commit) => answer == Heard(d, call, commit, site)
    case Block(_, calls, answers, _) => answers == AllAnswers(d, calls, site)
  }

  predicate AllAnswered(d: Dict, log: seq<Entry>, site: Site) {
    log == [] ||
    (AllAnswered(d, log[..|log| - 1], site) &&
     Answered(Replay(d, log[..|log| - 1], site), log[|log| - 1], site))
  }

  predicate Holds(mode: Mode) {
    mode.Serving? || mode.InBlock?
  }

  ghost predicate Exclusive(s: State) {
    forall t :: 0 <= t < |s.modes| ==> (Holds(s.modes[t]) <==> s.holder == Some(t))
  }

  ghost predicate Distinct(queue: seq<Thread>) {
    forall i, j :: 0 <= i < j < |queue| ==> queue[i] != queue[j]
  }

  ghost predicate Queued(s: State) {
    && (forall t <- s.queue :: t < |s.modes|)
    && Distinct(s.queue)
    && (forall t :: 0 <= t < |s.modes| ==> (s.modes[t].Waiting? <==> t in s.queue))
  }

  predicate InStep(master: Dict, mode: Mode, site: Site) {
    match mode
    case Serving(call, lease, worked) =>
      && (worked ==> Keyed(call))
      && lease == (if worked then Work(LeaseFor(master, call), call.write, site) else LeaseFor(master, call))
    case InBlock(copy, calls, answers) =>
      && copy == AllCalls(master, calls, site)
      && answers == AllAnswers(master, calls, site)
    case _ => true
  }

  ghost predicate Inv(s: State, d: Dict, site: Site) {
    && Exclusive(s)
    && Queued(s)
    && (s.holder.Some? ==> s.holder.value < |s.modes|)
    && (forall t :: 0 <= t < |s.modes| ==> InStep(s.master, s.modes[t], site))
    && s.master == Replay(d, s.log, site)
    && AllAnswered(d, s.log, site)
  }

  lemma StepKeepsQueue(s: State, step: Step, site: Site)
    requires Queued(s) && Enabled(s, step)
    ensures Queued(Next(s, step, site))
  {
    var queue, after := s.queue, Next(s, step, site).queue;
    match step
    case Ask(t, _) =>
      assert forall u :: u in after <==> u in queue || u == t;
    case GiveUp(t) =>
      WithoutKeepsOrder(queue, t);
    case Grant(t) =>
      assert queue == [t] + after;
      assert forall u :: u in queue <==> u in after || u == t;
      assert forall i :: 0 <= i < |after| ==> after[i] == queue[i + 1];
    case _ =>
  }

  lemma {:induction false} WithoutKeepsOrder(queue: seq<Thread>, t: Thread)
    requires Distinct(queue)
    ensures Distinct(Without(queue, t))
  {
    if queue != [] {
      var rest := queue[1..];
      WithoutKeepsOrder(rest, t);
      assert forall i :: 0 <= i < |rest| ==> rest[i] == queue[i + 1];
      assert queue[0] !in rest;
      assert queue[0] !in Without(rest, t);
    }
  }

  lemma LogGrows(d: Dict, log: seq<Entry>, e: Entry, site: Site)
    requires AllAnswered(d, log, site) && Answered(Replay(d, log, site), e, site)
    ensures Replay(d, log + [e], site) == ApplyEntry(Replay(d, log, site), e, site)
    ensures AllAnswered(d, log + [e], site)
  {
    assert (log + [e])[..|log|] == log;
  }

  lemma CallsGrow(d: Dict, calls: seq<Call>, call: Call, site: Site)
    ensures AllCalls(d, calls + [call], site) == AfterInBlock(AllCalls(d, calls, site), call, site)
    ensures AllAnswers(d, calls + [call], site)
         == AllAnswers(d, calls, site) + [AnswerOf(AllCalls(d, calls, site), call, site)]
  {
    assert (calls + [call])[..|calls|] == calls;
  }

  lemma StepKeepsExclusive(s: State, step: Step, site: Site)
    requires Exclusive(s) && Enabled(s, step) && (s.holder.Some? ==> s.holder.value < |s.modes|)
    ensures var s' := Next(s, step, site); Exclusive(s') && (s'.holder.Some? ==> s'.holder.value < |s'.modes|)
  {
    assert Holds(s.modes[step.t]) <==> s.holder == Some(step.t);
  }

  lemma StepKeepsInStep(s: State, step: Step, site: Site)
    requires Exclusive(s) && Enabled(s, step)
    requires forall t :: 0 <= t < |s.modes| ==> InStep(s.master, s.modes[t], site)
    ensures var s' := Next(s, step, site); forall t :: 0 <= t < |s'.modes| ==> InStep(s'.master, s'.modes[t], site)
  {
    var s' := Next(s, step, site);
    forall t | 0 <= t < |s'.modes| ensures InStep(s'.master, s'.modes[t], site) {
      assert InStep(s.master, s.modes[t], site);
      if t == step.t {
        OwnStepKeepsInStep(s, step, site);
      } else if Holds(s.modes[t]) {
        assert s.holder == Some(t);
        assert !Holds(s.modes[step.t]);
      }
    }
  }

  lemma OwnStepKeepsInStep(s: State, step: Step, site: Site)
    requires Enabled(s, step) && InStep(s.master, s.modes[step.t], site)
    ensures var s' := Next(s, step, site); InStep(s'.master, s'.modes[step.t], site)
  {
    if step.CallInside? {
      CallsGrow(s.master, s.modes[step.t].calls, step.call, site);
    }
  }

  lemma StepKeepsLog(s: State, step: Step, d: Dict, site: Site)
    requires Enabled(s, step) && InStep(s.master, s.modes[step.t], site)
    requires s.master == Replay(d, s.log, site) && AllAnswered(d, s.log, site)
    ensures var s' := Next(s, step, site); s'.master == Replay(d, s'.log, site) && AllAnswered(d, s'.log, site)
  {
    var t, mode := step.t, s.modes[step.t];
    match step
    case Release(_, commit) =>
      if Keyed(mode.call) {
        TurnIsTheWrite(s.master, mode.call, site);
      }
      LogGrows(d, s.log, Single(t, mode.call, Heard(s.master, mode.call, commit, site), commit), site);
    case Close(_, raised, landed) =>
      LogGrows(d, s.log, Block(t, mode.calls, mode.answers, !raised && landed), site);
    case _ =>
  }

  lemma StepKeepsInv(s: State, step: Step, d: Dict, site: Site)
    requires Inv(s, d, site) && Enabled(s, step)
    ensures Inv(Next(s, step, site), d, site)
  {
    StepKeepsQueue(s, step, site);
    StepKeepsExclusive(s, step, site);
    StepKeepsInStep(s, step, site);
    StepKeepsLog(s, step, d, site);
  }

  lemma {:induction false} RunKeepsInv(s: State, steps: seq<Step>, d: Dict, site: Site)
    requires Inv(s, d, site) && Feasible(s, steps, site)
    ensures Inv(After(s, steps, site), d, site)
    decreases |steps|
  {
    if steps != [] {
      StepKeepsInv(s, steps[0], d, site);
      RunKeepsInv(Next(s, steps[0], site), steps[1..], d, site);
    }
  }

  /** For any number of threads and any interleaving, the master is the finished
      operations applied in the order they released the lock, and every answer given
      is the answer of that serial history. */
  lemma Serializable(d: Dict, threads: nat, steps: seq<Step>, site: Site)
    requires Feasible(Start(d, threads), steps, site)
    ensures var s := After(Start(d, threads), steps, site);
            s.master == Replay(d, s.log, site) && AllAnswered(d, s.log, site)
  {
    RunKeepsInv(Start(d, threads), steps, d, site);
  }

  /* ---------------- no finished write is lost ---------------- */

  /** The write of `other` neither lies on `path` nor above or below it. */
  predicate Apart(path: string, other: string, site: Site) {
    other == "" || !Comparable(AdapterPath(path, site), AdapterPath(other, site))
  }

  predicate CallApart(path: string, call: Call, site: Site) {
    call.Change? ==> Apart(path, call.write.path, site)
  }

  predicate EntryApart(path: string, e: Entry, site: Site) {
    match e
    case Single(_, call, _, _) => CallApart(path, call, site)
    case Block(_, calls, _, _) => forall call <- calls :: CallApart(path, call, site)
  }

  /** The legacy face holds the value at the path, however it is asked for. */
  ghost predicate Kept(face: Dict, path: string, v: Value, site: Site) {
    && Key(path) in face
    && if Rest(path) == "" then face[Key(path)] == v
       else face[Key(path)].Bag? &&
            forall default :: GetItem(face[Key(path)].nodes, Labels(Rest(path), site), default) == v
  }

  lemma KeptIsRead(d: Dict, path: string, v: Value, default: Value, site: Site)
    requires Kept(LegacyDict(d, site), path, v, site)
    ensures ReadIn(d, path, default, site) == v
  {
    ReadSeesLegacyFace(d, path, default, site);
  }

  lemma PlainSetKeeps(face: Dict, path: string, v: Value, site: Site)
    ensures Kept(PlainSet(face, path, v, site), path, v, site)
  {
    if Rest(path) != "" {
      forall default
        ensures GetItem(SetItem(BagUnder(face, Key(path)), Labels(Rest(path), site), v), Labels(Rest(path), site), default) == v
      {
        GetAfterSet(BagUnder(face, Key(path)), Labels(Rest(path), site), v, default);
      }
    }
  }

  lemma ApartBelowTheKey(path: string, other: string, site: Site)
    requires Apart(path, other, site) && other != "" && Key(path) == Key(other)
    ensures Rest(path) != "" && Rest(other) != ""
    ensures !Comparable(Labels(Rest(path), site), Labels(Rest(other), site))
  {
    assert AdapterPath(path, site)[0] == AdapterPath(other, site)[0];
    ComparableTails(AdapterPath(path, site), AdapterPath(other, site));
    assert AdapterPath(path, site)[1..] == Labels(Rest(path), site);
    assert AdapterPath(other, site)[1..] == Labels(Rest(other), site);
  }

  lemma ApartSetKeeps(face: Dict, path: string, v: Value, other: string, w: Value, site: Site)
    requires Kept(face, path, v, site) && Apart(path, other, site) && other != ""
    ensures Kept(PlainSet(face, other, w, site), path, v, site)
  {
    if Key(path) == Key(other) {
      ApartBelowTheKey(path, other, site);
      forall default
        ensures GetItem(SetItem(BagUnder(face, Key(path)), Labels(Rest(other), site), w), Labels(Rest(path), site), default) == v
      {
        GetAfterSetElsewhere(BagUnder(face, Key(path)), Labels(Rest(other), site), w, Labels(Rest(path), site), default);
      }
    }
  }

  lemma ApartDeleteKeeps(face: Dict, path: string, v: Value, other: string, site: Site)
    requires Kept(face, path, v, site) && Apart(path, other, site) && other != ""
    ensures Kept(DeleteIn(face, other, site), path, v, site)
  {
    var key := Key(path);
    if key == Key(other) {
      ApartBelowTheKey(path, other, site);
      var nodes, after := face[key].nodes, DelItem(face[key].nodes, Labels(Rest(other), site));
      forall default ensures GetItem(after, Labels(Rest(path), site), default) == v {
        GetAfterDelElsewhere(nodes, Labels(Rest(other), site), Labels(Rest(path), site), default);
      }
      assert DeleteIn(face, other, site) == face[key := Bag(after)];
    } else {
      var after := DeleteIn(face, other, site);
      assert key in after && after[key] == face[key];
    }
  }

  lemma ApartCallKeeps(d: Dict, path: string, v: Value, call: Call, site: Site)
    requires Kept(LegacyDict(d, site), path, v, site) && CallApart(path, call, site)
    ensures Kept(LegacyDict(AfterDirect(d, call, site), site), path, v, site)
    ensures Kept(LegacyDict(AfterInBlock(d, call, site), site), path, v, site)
  {
    if call.Change? && call.write.path != "" {
      match call.write
      case Set(other, w) =>
        DirectSetMeans(d, other, w, site);
        BlockSetMeans(d, other, w, site);
        ApartSetKeeps(LegacyDict(d, site), path, v, other, Legacy(w, site), site);
      case Delete(other) =>
        DeleteMeans(d, other, site);
        ApartDeleteKeeps(LegacyDict(d, site), path, v, other, site);
    }
  }

  lemma {:induction false} ApartCallsKeep(d: Dict, path: string, v: Value, calls: seq<Call>, site: Site)
    requires Kept(LegacyDict(d, site), path, v, site)
    requires forall call <- calls :: CallApart(path, call, site)
    ensures Kept(LegacyDict(AllCalls(d, calls, site), site), path, v, site)
  {
    if calls != [] {
      ApartCallsKeep(d, path, v, calls[..|calls| - 1], site);
      assert calls[|calls| - 1] in calls;
      ApartCallKeeps(AllCalls(d, calls[..|calls| - 1], site), path, v, calls[|calls| - 1], site);
    }
  }

  lemma {:induction false} ApartEntriesKeep(d: Dict, path: string, v: Value, log: seq<Entry>, site: Site)
    requires Kept(LegacyDict(d, site), path, v, site)
    requires forall e <- log :: EntryApart(path, e, site)
    ensures Kept(LegacyDict(Replay(d, log, site), site), path, v, site)
  {
    if log != [] {
      var front, e := log[..|log| - 1], log[|log| - 1];
      ApartEntriesKeep(d, path, v, front, site);
      assert e in log;
      var before := Replay(d, front, site);
      match e
      case Single(_, call, _, _) => ApartCallKeeps(before, path, v, call, site);
      case Block(_, calls, _, committed) =>
        ApartCallsKeep(before, path, v, calls, site);
        WireAllMeans(AllCalls(before, calls, site), site);
    }
  }

  lemma {:induction false} ReplaySplits(d: Dict, log: seq<Entry>, more: seq<Entry>, site: Site)
    ensures Replay(d, log + more, site) == Replay(Replay(d, log, site), more, site)
    decreases |more|
  {
    if more == [] {
      assert log + more == log;
    } else {
      ReplaySplits(d, log, more[..|more| - 1], site);
      assert (log + more)[..|log + more| - 1] == log + more[..|more| - 1];
    }
  }

  /** The finished operation writes the value at the path, and nothing of it comes after. */
  predicate Leaves(e: Entry, path: string, v: Value, site: Site) {
    match e
    case Single(_, call, _, commit) => !commit.Lost? && call == Change(Set(path, v))
    case Block(_, calls, _, committed) =>
      committed && exists j | 0 <= j < |calls| ::
        calls[j] == Change(Set(path, v)) && forall call <- calls[j + 1..] :: CallApart(path, call, site)
  }

  lemma LastCall(d: Dict, calls: seq<Call>, call: Call, site: Site)
    ensures AllCalls(d, calls + [call], site) == AfterInBlock(AllCalls(d, calls, site), call, site)
  {
    assert (calls + [call])[..|calls|] == calls;
  }

  lemma {:induction false} CallsSplit(d: Dict, calls: seq<Call>, more: seq<Call>, site: Site)
    ensures AllCalls(d, calls + more, site) == AllCalls(AllCalls(d, calls, site), more, site)
    decreases |more|
  {
    if more == [] {
      assert calls + more == calls;
    } else {
      var front, last := more[..|more| - 1], more[|more| - 1];
      CallsSplit(d, calls, front, site);
      assert calls + more == (calls + front) + [last] && more == front + [last];
      LastCall(d, calls + front, last, site);
      LastCall(AllCalls(d, calls, site), front, last, site);
    }
  }

  lemma CallIsKept(d: Dict, calls: seq<Call>, path: string, v: Value, site: Site)
    requires path != ""
    ensures Kept(LegacyDict(AllCalls(d, calls + [Change(Set(path, v))], site), site), path, Legacy(v, site), site)
  {
    var before := AllCalls(d, calls, site);
    LastCall(d, calls, Change(Set(path, v)), site);
    BlockSetMeans(before, path, v, site);
    PlainSetKeeps(LegacyDict(before, site), path, Legacy(v, site), site);
  }

  lemma CallsThenApart(d: Dict, calls: seq<Call>, j: nat, path: string, v: Value, site: Site)
    requires path != "" && j < |calls| && calls[j] == Change(Set(path, v))
    requires forall call <- calls[j + 1..] :: CallApart(path, call, site)
    ensures Kept(LegacyDict(AllCalls(d, calls, site), site), path, Legacy(v, site), site)
  {
    CallIsKept(d, calls[..j], path, v, site);
    assert calls[..j + 1] == calls[..j] + [Change(Set(path, v))];
    ApartCallsKeep(AllCalls(d, calls[..j + 1], site), path, Legacy(v, site), calls[j + 1..], site);
    CallsSplit(d, calls[..j + 1], calls[j + 1..], site);
    assert calls[..j + 1] + calls[j + 1..] == calls;
  }

  lemma LeavingIsKeeping(d: Dict, e: Entry, path: string, v: Value, site: Site)
    requires path != "" && Leaves(e, path, v, site)
    ensures Kept(LegacyDict(ApplyEntry(d, e, site), site), path, Legacy(v, site), site)
  {
    match e
    case Single(_, call, _, _) =>
      DirectSetMeans(d, path, v, site);
      PlainSetKeeps(LegacyDict(d, site), path, Legacy(v, site), site);
    case Block(_, calls, _, _) =>
      var j :| 0 <= j < |calls| && calls[j] == Change(Set(path, v))
            && forall call <- calls[j + 1..] :: CallApart(path, call, site);
      CallsThenApart(d, calls, j, path, v, site);
      WireAllMeans(AllCalls(d, calls, site), site);
  }

  /** A finished write is read back until something on its own path is written: no
      sibling written by any other thread, alone or in a block, ever loses it. */
  lemma NoFinishedWriteIsLost(d: Dict, threads: nat, steps: seq<Step>, i: nat, path: string, v: Value,
                              default: Value, site: Site)
    requires Feasible(Start(d, threads), steps, site)
    requires var log := After(Start(d, threads), steps, site).log;
             && path != "" && i < |log| && Leaves(log[i], path, v, site)
             && forall e <- log[i + 1..] :: EntryApart(path, e, site)
    ensures ReadIn(After(Start(d, threads), steps, site).master, path, default, site) == Legacy(v, site)
  {
    Serializable(d, threads, steps, site);
    LeftIsRead(d, After(Start(d, threads), steps, site).log, i, path, v, default, site);
  }

  lemma LeftIsRead(d: Dict, log: seq<Entry>, i: nat, path: string, v: Value, default: Value, site: Site)
    requires path != "" && i < |log| && Leaves(log[i], path, v, site)
    requires forall e <- log[i + 1..] :: EntryApart(path, e, site)
    ensures ReadIn(Replay(d, log, site), path, default, site) == Legacy(v, site)
  {
    var left := ApplyEntry(Replay(d, log[..i], site), log[i], site);
    LeavingIsKeeping(Replay(d, log[..i], site), log[i], path, v, site);
    ApartEntriesKeep(left, path, Legacy(v, site), log[i + 1..], site);
    LogCut(d, log, i, site);
    KeptIsRead(Replay(d, log, site), path, Legacy(v, site), default, site);
  }

  lemma LogCut(d: Dict, log: seq<Entry>, i: nat, site: Site)
    requires i < |log|
    ensures Replay(d, log, site) == Replay(ApplyEntry(Replay(d, log[..i], site), log[i], site), log[i + 1..], site)
  {
    ReplaySplits(d, log[..i + 1], log[i + 1..], site);
    assert log[..i + 1] + log[i + 1..] == log && log[..i + 1][..i] == log[..i];
  }

  /* ---------------- the whole store ---------------- */

  lemma {:induction false} CallsKeepKeysDotFree(d: Dict, calls: seq<Call>, site: Site)
    requires forall k <- d.Keys :: DotFree(k)
    ensures forall k <- AllCalls(d, calls, site).Keys :: DotFree(k)
  {
    if calls != [] {
      var front, last := calls[..|calls| - 1], calls[|calls| - 1];
      CallsKeepKeysDotFree(d, front, site);
      if last.Change? {
        WritesKeepKeysDotFree(AllCalls(d, front, site), last.write, site);
      }
    }
  }

  lemma {:induction false} ReplayKeepsKeysDotFree(d: Dict, log: seq<Entry>, site: Site)
    requires forall k <- d.Keys :: DotFree(k)
    ensures forall k <- Replay(d, log, site).Keys :: DotFree(k)
  {
    if log != [] {
      var front, last := log[..|log| - 1], log[|log| - 1];
      ReplayKeepsKeysDotFree(d, front, site);
      match last
      case Single(_, call, _, _) =>
        if call.Change? {
          WritesKeepKeysDotFree(Replay(d, front, site), call.write, site);
        }
      case Block(_, calls, _, _) => CallsKeepKeysDotFree(Replay(d, front, site), calls, site);
    }
  }

  /** Whoever asks for the whole store, at whatever moment of whatever interleaving, by a
      read without a path or as a Bag, is told what the snapshot of the master has, key by
      key, in whatever order it is walked. */
  lemma WholeIsTheSnapshot(d: Dict, threads: nat, steps: seq<Step>, default: Value, order: seq<string>, site: Site)
    requires Feasible(Start(d, threads), steps, site) && forall k <- d.Keys :: DotFree(k)
    requires Enumerates(order, After(Start(d, threads), steps, site).master)
    ensures var master := After(Start(d, threads), steps, site).master;
            && AnswerOf(master, Snapshot, site) == AnswerOf(master, Read("", default), site)
            && AnswerOf(master, Snapshot, site).Whole?
            && DottedBag.Represents(SnapshotOf(master, order, site), AnswerOf(master, Snapshot, site).face)
  {
    Serializable(d, threads, steps, site);
    var s := After(Start(d, threads), steps, site);
    ReplayKeepsKeysDotFree(d, s.log, site);
    DottedBag.SnapshotIsFaithful(s.master, order, site);
  }
}
