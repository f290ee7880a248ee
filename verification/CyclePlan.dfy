/** The plan of the eight-core cycle: one row per request, built phase by phase and user
    by user, sorted by instant and numbered throughout. */
module CyclePlan {
  import opened Wrappers
  import opened Sorting
  import opened PlanInstants

  /** Whole-second windows and periods. `pausedOrder` is the draw: who pauses, in the
      order of coming back. */
  datatype Arguments = Arguments(users: nat, pausedOrder: seq<nat>, loginPeriod: nat, returnPeriod: nat,
                                 warmup: nat, measure: nat, pause: nat)

  predicate Valid(a: Arguments) {
    && |a.pausedOrder| < a.users
    && (forall u <- a.pausedOrder :: u < a.users)
    && (forall i, j :: 0 <= i < j < |a.pausedOrder| ==> a.pausedOrder[i] != a.pausedOrder[j])
  }

  datatype Phase = LoginRamp | FullWarmup | FullMeasure1 | Pause50 | ReturnRamp | FullMeasure2

  datatype Window = Window(phase: Phase, rate: nat, seconds: nat)

  function Phases(a: Arguments): seq<Window>
    requires Valid(a)
  {
    var active := a.users - |a.pausedOrder|;
    [Window(LoginRamp, a.users, Product(a.loginPeriod, a.users)),
     Window(FullWarmup, a.users, a.warmup),
     Window(FullMeasure1, a.users, a.measure),
     Window(Pause50, active, a.pause),
     Window(ReturnRamp, a.users, Product(a.returnPeriod, |a.pausedOrder| + 1)),
     Window(FullMeasure2, a.users, a.measure)]
  }

  datatype Row = Row(tick: nat, user: nat)

  /* ---------------- who calls when ---------------- */

  function PositionOf(order: seq<nat>, user: nat): (i: nat)
    ensures i <= |order|
    ensures i < |order| ==> order[i] == user
    ensures i == |order| <==> user !in order
  {
    if order == [] then 0 else if order[0] == user then 0 else 1 + PositionOf(order[1..], user)
  }

  /** The second from which a user calls in a phase, if it does. */
  function FirstSecond(a: Arguments, phase: Phase, user: nat): Option<nat> {
    match phase
    case LoginRamp => Some(Product(a.loginPeriod, user) + 1)
    case Pause50 => if user in a.pausedOrder then None else Some(0)
    case ReturnRamp =>
      if user in a.pausedOrder then Some(Product(a.returnPeriod, PositionOf(a.pausedOrder, user)) + 1) else Some(0)
    case _ => Some(0)
  }

  /** One user's rows: one a second from `first`, while the window lasts. */
  function UserRows(users: nat, user: nat, first: nat, until: nat): seq<Row>
    requires user < users
  {
    if until <= first then [] else UserRows(users, user, first, until - 1) + [Row(Tick(users, until - 1, user), user)]
  }

  /** From which second each user calls, if it does. */
  type Starts = nat -> Option<nat>

  function StartsOf(a: Arguments, phase: Phase): Starts {
    user => FirstSecond(a, phase, user)
  }

  function RowsOfUser(users: nat, starts: Starts, until: nat, user: nat): seq<Row>
    requires user < users
  {
    match starts(user)
    case None => []
    case Some(first) => UserRows(users, user, first, until)
  }

  /** The rows of the first `n` users. */
  function RowsUpTo(users: nat, starts: Starts, until: nat, n: nat): seq<Row>
    requires n <= users
  {
    if n == 0 then [] else RowsUpTo(users, starts, until, n - 1) + RowsOfUser(users, starts, until, n - 1)
  }

  function RowsOf(a: Arguments, phase: Phase, until: nat): seq<Row> {
    RowsUpTo(a.users, StartsOf(a, phase), until, a.users)
  }

  /* ---------------- the builders ---------------- */

  /** Each step adds a second to the first call until the window is over. */
  method UserCalls(users: nat, user: nat, first: nat, until: nat) returns (out: seq<nat>)
    requires user < users
    ensures |out| == if first < until then until - first else 0
    ensures forall k :: 0 <= k < |out| ==> out[k] == Tick(users, first + k, user)
  {
    out := [];
    var step := 0;
    while Tick(users, first + step, user) < Product(users, until)
      invariant step == |out| && (step == 0 || first + step <= until)
      invariant forall k :: 0 <= k < |out| ==> out[k] == Tick(users, first + k, user)
      decreases until - (first + step)
    {
      if until <= first + step {
        NotBefore(users, until, first + step);
        assert false;
      }
      out := out + [Tick(users, first + step, user)];
      step := step + 1;
    }
    if first + step < until {
      Gap(users, first + step, until);
      assert false;
    }
  }

  lemma NotBefore(users: nat, until: nat, second: nat)
    requires until <= second
    ensures Product(users, until) <= Product(users, second)
  {
    if until < second {
      Gap(users, until, second);
    }
  }

  /** The rows so far and those of one more user. */
  method WithUser(rows: seq<Row>, users: nat, user: nat, first: nat, until: nat) returns (more: seq<Row>)
    requires user < users
    ensures more == rows + UserRows(users, user, first, until)
  {
    var calls := UserCalls(users, user, first, until);
    more := rows;
    for k := 0 to |calls|
      invariant more == rows + UserRows(users, user, first, first + k)
    {
      more := more + [Row(calls[k], user)];
    }
  }

  method RowsOfLoginRamp(a: Arguments, window: Window) returns (rows: seq<Row>)
    ensures rows == RowsOf(a, LoginRamp, window.seconds)
  {
    rows := [];
    for user := 0 to a.users
      invariant rows == RowsUpTo(a.users, StartsOf(a, LoginRamp), window.seconds, user)
    {
      var entry := Product(a.loginPeriod, user);
      rows := WithUser(rows, a.users, user, entry + 1, window.seconds);
    }
  }

  method RowsOfAllActive(a: Arguments, window: Window) returns (rows: seq<Row>)
    ensures forall phase :: phase in {FullWarmup, FullMeasure1, FullMeasure2} ==>
              rows == RowsOf(a, phase, window.seconds)
  {
    rows := [];
    for user := 0 to a.users
      invariant forall phase :: phase in {FullWarmup, FullMeasure1, FullMeasure2} ==>
                  rows == RowsUpTo(a.users, StartsOf(a, phase), window.seconds, user)
    {
      rows := WithUser(rows, a.users, user, 0, window.seconds);
    }
  }

  method RowsOfPause(a: Arguments, window: Window) returns (rows: seq<Row>)
    ensures rows == RowsOf(a, Pause50, window.seconds)
  {
    rows := [];
    for user := 0 to a.users
      invariant rows == RowsUpTo(a.users, StartsOf(a, Pause50), window.seconds, user)
    {
      if user !in a.pausedOrder {
        rows := WithUser(rows, a.users, user, 0, window.seconds);
      }
    }
  }

  lemma PositionIs(order: seq<nat>, i: nat)
    requires i < |order| && forall j, k :: 0 <= j < k < |order| ==> order[j] != order[k]
    ensures PositionOf(order, order[i]) == i
  {
    assert order[i] in order;
  }

  lemma ComesBackAt(a: Arguments, position: nat)
    requires Valid(a) && position < |a.pausedOrder|
    ensures FirstSecond(a, ReturnRamp, a.pausedOrder[position]) == Some(Product(a.returnPeriod, position) + 1)
  {
    PositionIs(a.pausedOrder, position);
  }

  /** Of these users, and no others, the second before the first call. */
  ghost predicate BackAt(a: Arguments, order: seq<nat>, pausedAt: map<nat, nat>) {
    && (forall u :: u in pausedAt <==> u in order)
    && (forall u <- pausedAt :: FirstSecond(a, ReturnRamp, u) == Some(pausedAt[u] + 1))
  }

  lemma OneMoreBack(a: Arguments, order: seq<nat>, pausedAt: map<nat, nat>, name: nat, at: nat)
    requires BackAt(a, order, pausedAt) && FirstSecond(a, ReturnRamp, name) == Some(at + 1)
    ensures BackAt(a, order + [name], pausedAt[name := at])
  {
  }

  /** The second at which each paused user comes back: one before its first call. */
  method PausedAt(a: Arguments) returns (pausedAt: map<nat, nat>)
    requires Valid(a)
    ensures BackAt(a, a.pausedOrder, pausedAt)
  {
    pausedAt := map[];
    for position := 0 to |a.pausedOrder|
      invariant BackAt(a, a.pausedOrder[..position], pausedAt)
    {
      ComesBackAt(a, position);
      var name := a.pausedOrder[position];
      OneMoreBack(a, a.pausedOrder[..position], pausedAt, name, Product(a.returnPeriod, position));
      pausedAt := pausedAt[name := Product(a.returnPeriod, position)];
      assert a.pausedOrder[..position + 1] == a.pausedOrder[..position] + [name];
    }
    assert a.pausedOrder[..|a.pausedOrder|] == a.pausedOrder;
  }

  lemma OneMoreUsersRows(users: nat, starts: Starts, until: nat, user: nat, first: nat)
    requires user < users && starts(user) == Some(first)
    ensures RowsUpTo(users, starts, until, user + 1)
         == RowsUpTo(users, starts, until, user) + UserRows(users, user, first, until)
  {
  }

  lemma ReturnsFrom(a: Arguments, pausedAt: map<nat, nat>, user: nat)
    requires BackAt(a, a.pausedOrder, pausedAt)
    ensures StartsOf(a, ReturnRamp)(user) == Some(if user !in pausedAt then 0 else pausedAt[user] + 1)
  {
  }

  method RowsOfReturnRamp(a: Arguments, window: Window) returns (rows: seq<Row>)
    requires Valid(a)
    ensures rows == RowsOf(a, ReturnRamp, window.seconds)
  {
    var pausedAt := PausedAt(a);
    rows := [];
    for user := 0 to a.users
      invariant rows == RowsUpTo(a.users, StartsOf(a, ReturnRamp), window.seconds, user)
    {
      var first := if user !in pausedAt then 0 else pausedAt[user] + 1;
      ReturnsFrom(a, pausedAt, user);
      OneMoreUsersRows(a.users, StartsOf(a, ReturnRamp), window.seconds, user, first);
      rows := WithUser(rows, a.users, user, first, window.seconds);
    }
  }

  /* ---------------- the whole plan ---------------- */

  /** A request of the plan; its instant in whole microseconds of its window. */
  datatype Call = Call(phase: Phase, rate: nat, micros: nat, user: nat, number: nat)

  function TickOf(r: Row): int {
    r.tick
  }

  function Segment(a: Arguments, w: Window): seq<Row> {
    SortBy(TickOf, RowsOf(a, w.phase, w.seconds))
  }

  /** A row and the window it is offered in. */
  datatype Offer = Offer(window: Window, row: Row)

  function OffersOf(w: Window, rows: seq<Row>): seq<Offer> {
    seq(|rows|, k requires 0 <= k < |rows| => Offer(w, rows[k]))
  }

  /** The offers of some windows, one window after the other. */
  function Offers(a: Arguments, windows: seq<Window>): seq<Offer> {
    if windows == [] then []
    else
      var w := windows[|windows| - 1];
      Offers(a, windows[..|windows| - 1]) + OffersOf(w, Segment(a, w))
  }

  function CallOf(users: nat, o: Offer, number: nat): Call
    requires users > 0
  {
    Call(o.window.phase, o.window.rate, Micros(users, o.row.tick), o.row.user, number)
  }

  function Numbered(users: nat, offers: seq<Offer>): seq<Call>
    requires users > 0
  {
    seq(|offers|, i requires 0 <= i < |offers| => CallOf(users, offers[i], i))
  }

  function Plan(a: Arguments): seq<Call>
    requires Valid(a)
  {
    Numbered(a.users, Offers(a, Phases(a)))
  }

  method Instants(a: Arguments, w: Window) returns (instants: seq<Row>)
    requires Valid(a)
    ensures instants == Segment(a, w)
  {
    var rows;
    match w.phase {
      case LoginRamp => rows := RowsOfLoginRamp(a, w);
      case Pause50 => rows := RowsOfPause(a, w);
      case ReturnRamp => rows := RowsOfReturnRamp(a, w);
      case FullWarmup => rows := RowsOfAllActive(a, w);
      case FullMeasure1 => rows := RowsOfAllActive(a, w);
      case FullMeasure2 => rows := RowsOfAllActive(a, w);
    }
    instants := SortBy(TickOf, rows);
  }

  lemma OneMoreCall(users: nat, offers: seq<Offer>, o: Offer)
    requires users > 0
    ensures Numbered(users, offers + [o]) == Numbered(users, offers) + [CallOf(users, o, |offers|)]
  {
  }

  /** The rows so far, and one call per instant, numbered on. */
  method WithWindow(before: seq<Call>, users: nat, w: Window, instants: seq<Row>, ghost offers: seq<Offer>)
      returns (rows: seq<Call>)
    requires users > 0 && before == Numbered(users, offers)
    ensures rows == Numbered(users, offers + OffersOf(w, instants))
  {
    rows := before;
    var sequence := |before|;
    assert offers + OffersOf(w, instants[..0]) == offers;
    for i := 0 to |instants|
      invariant rows == Numbered(users, offers + OffersOf(w, instants[..i]))
      invariant sequence == |offers| + i
    {
      var o := Offer(w, instants[i]);
      assert offers + OffersOf(w, instants[..i + 1]) == (offers + OffersOf(w, instants[..i])) + [o];
      OneMoreCall(users, offers + OffersOf(w, instants[..i]), o);
      rows := rows + [CallOf(users, o, sequence)];
      sequence := sequence + 1;
    }
    assert instants[..|instants|] == instants;
  }

  method Calls(a: Arguments) returns (rows: seq<Call>)
    requires Valid(a)
    ensures rows == Plan(a)
  {
    rows := CallsOfWindows(a, Phases(a));
  }

  method CallsOfWindows(a: Arguments, windows: seq<Window>) returns (rows: seq<Call>)
    requires Valid(a)
    ensures rows == Numbered(a.users, Offers(a, windows))
  {
    rows := [];
    for k := 0 to |windows|
      invariant rows == Numbered(a.users, Offers(a, windows[..k]))
    {
      var instants := Instants(a, windows[k]);
      rows := WithWindow(rows, a.users, windows[k], instants, Offers(a, windows[..k]));
      assert windows[..k + 1][..k] == windows[..k];
    }
    assert windows[..|windows|] == windows;
  }
}
