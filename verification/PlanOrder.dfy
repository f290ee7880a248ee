/** The order of the plan: instants within a phase, numbers throughout, and what six
    digits leave of both. */
module PlanOrder {
  import opened Counting
  import opened Sorting
  import opened PlanInstants
  import opened CyclePlan
  import opened PlanRates

  /* ---------------- instants are distinct ---------------- */

  lemma OneMore<T>(s: seq<T>, x: T)
    requires x !in s && forall r :: multiset(s)[r] <= 1
    ensures forall r :: multiset(s + [x])[r] <= 1
  {
    assert multiset(s)[x] == 0;
  }

  lemma {:induction false} UserRowsOnce(users: nat, user: nat, first: nat, until: nat)
    requires user < users
    ensures forall r :: multiset(UserRows(users, user, first, until))[r] <= 1
  {
    if until > first {
      UserRowsOnce(users, user, first, until - 1);
      var last := Row(Tick(users, until - 1, user), user);
      LastRowIsNew(users, user, first, until);
      OneMore(UserRows(users, user, first, until - 1), last);
    }
  }

  lemma LastRowIsNew(users: nat, user: nat, first: nat, until: nat)
    requires user < users && first < until
    ensures Row(Tick(users, until - 1, user), user) !in UserRows(users, user, first, until - 1)
  {
    UserRowsAre(users, user, first, until - 1, Row(Tick(users, until - 1, user), user));
    TickParts(users, until - 1, user);
  }

  lemma OnceTogether<T>(s: seq<T>, t: seq<T>)
    requires forall r :: multiset(s)[r] <= 1 && multiset(t)[r] <= 1 && !(r in s && r in t)
    ensures forall r :: multiset(s + t)[r] <= 1
  {
    forall r ensures multiset(s + t)[r] <= 1 {
      assert multiset(s + t)[r] == multiset(s)[r] + multiset(t)[r];
      assert r in s <==> multiset(s)[r] > 0;
      assert r in t <==> multiset(t)[r] > 0;
    }
  }

  lemma OwnRowsAreNew(users: nat, starts: Starts, until: nat, n: nat, r: Row)
    requires 0 < n <= users
    ensures !(r in RowsUpTo(users, starts, until, n - 1) && r in RowsOfUser(users, starts, until, n - 1))
  {
    RowsUpToAre(users, starts, until, n - 1, r);
    RowsOfUserAre(users, starts, until, n - 1, r);
    assert r in RowsUpTo(users, starts, until, n - 1) ==> r.user < n - 1;
  }

  lemma OwnRowsOnce(users: nat, starts: Starts, until: nat, user: nat)
    requires user < users
    ensures forall r :: multiset(RowsOfUser(users, starts, until, user))[r] <= 1
  {
    if starts(user).Some? {
      UserRowsOnce(users, user, starts(user).value, until);
    }
  }

  lemma {:induction false} RowsOnce(users: nat, starts: Starts, until: nat, n: nat)
    requires n <= users
    ensures forall r :: multiset(RowsUpTo(users, starts, until, n))[r] <= 1
  {
    if n > 0 {
      RowsOnce(users, starts, until, n - 1);
      var before, own := RowsUpTo(users, starts, until, n - 1), RowsOfUser(users, starts, until, n - 1);
      OwnRowsOnce(users, starts, until, n - 1);
      forall r ensures !(r in before && r in own) {
        OwnRowsAreNew(users, starts, until, n, r);
      }
      OnceTogether(before, own);
    }
  }

  lemma Twice<T>(s: seq<T>, i: nat, j: nat)
    requires i < j < |s| && s[i] == s[j]
    ensures multiset(s)[s[i]] >= 2
  {
    assert s == s[..j] + [s[j]] + s[j + 1..];
    assert s[..j][i] == s[i];
  }

  /** After the sort every phase is strictly increasing: no two rows share an instant. */
  lemma SegmentInOrder(a: Arguments, w: Window, i: nat, j: nat)
    requires Valid(a) && i < j < |Segment(a, w)|
    ensures Segment(a, w)[i].tick < Segment(a, w)[j].tick
  {
    var rows, sorted := RowsOf(a, w.phase, w.seconds), Segment(a, w);
    SortByIsSorted(TickOf, rows);
    RowsOnce(a.users, StartsOf(a, w.phase), w.seconds, a.users);
    assert TickOf(sorted[i]) <= TickOf(sorted[j]);
    assert sorted[i] in multiset(sorted) && sorted[j] in multiset(sorted);
    RowsAre(a, w.phase, w.seconds, sorted[i]);
    RowsAre(a, w.phase, w.seconds, sorted[j]);
    if sorted[i].tick == sorted[j].tick {
      assert sorted[i] == sorted[j];
      Twice(sorted, i, j);
    }
  }

  /** A user's calls in a phase lie whole seconds apart, and where one more second
      remains there is a call in it. */
  lemma OneSecondApart(a: Arguments, phase: Phase, until: nat, r: Row, q: Row)
    requires Valid(a) && r in RowsOf(a, phase, until)
    ensures SecondOf(a.users, r.tick) + 1 < until ==> Row(r.tick + a.users, r.user) in RowsOf(a, phase, until)
    ensures q in RowsOf(a, phase, until) && q.user == r.user ==>
              q.tick - r.tick == a.users * (SecondOf(a.users, q.tick) - SecondOf(a.users, r.tick))
  {
    RowsAre(a, phase, until, r);
    RowsAre(a, phase, until, q);
    RowsAre(a, phase, until, Row(r.tick + a.users, r.user));
    if SecondOf(a.users, r.tick) + 1 < until {
      NextBelongs(a.users, StartsOf(a, phase), until, r);
    }
    if q in RowsOf(a, phase, until) && q.user == r.user {
      TicksApart(a.users, SecondOf(a.users, q.tick), SecondOf(a.users, r.tick), r.user);
    }
  }

  lemma NextBelongs(users: nat, starts: Starts, until: nat, r: Row)
    requires Belongs(users, starts, until, r) && SecondOf(users, r.tick) + 1 < until
    ensures Belongs(users, starts, until, Row(r.tick + users, r.user))
  {
    var s := SecondOf(users, r.tick);
    TickParts(users, s + 1, r.user);
    assert r.tick + users == Tick(users, s + 1, r.user);
  }

  lemma TicksApart(users: nat, s: nat, t: nat, index: nat)
    requires index < users
    ensures Tick(users, s, index) - Tick(users, t, index) == users * (s - t)
  {
    ProductIsProduct(users, s);
    ProductIsProduct(users, t);
    assert users * (s - t) == users * s - users * t;
  }

  /* ---------------- the calls of the plan ---------------- */

  predicate DistinctPhases(windows: seq<Window>) {
    forall m, n :: 0 <= m < n < |windows| ==> windows[m].phase != windows[n].phase
  }

  predicate InOrder(offers: seq<Offer>) {
    forall i, j :: 0 <= i < j < |offers| && offers[i].window.phase == offers[j].window.phase ==>
      offers[i].row.tick < offers[j].row.tick
  }

  lemma PhasesAreDistinct(a: Arguments)
    requires Valid(a)
    ensures DistinctPhases(Phases(a))
  {
  }

  lemma {:induction false} OffersAreOf(a: Arguments, windows: seq<Window>)
    ensures forall o <- Offers(a, windows) :: o.window in windows
  {
    if windows != [] {
      OffersAreOf(a, windows[..|windows| - 1]);
    }
  }

  lemma InOrderTogether(before: seq<Offer>, more: seq<Offer>)
    requires InOrder(before) && InOrder(more)
    requires forall o, p :: o in before && p in more ==> o.window.phase != p.window.phase
    ensures InOrder(before + more)
  {
  }

  lemma WindowInOrder(a: Arguments, w: Window)
    requires Valid(a)
    ensures InOrder(OffersOf(w, Segment(a, w)))
  {
    var rows := Segment(a, w);
    forall i, j | 0 <= i < j < |rows| ensures rows[i].tick < rows[j].tick {
      SegmentInOrder(a, w, i, j);
    }
  }

  lemma {:induction false} OffersInOrder(a: Arguments, windows: seq<Window>)
    requires Valid(a) && DistinctPhases(windows)
    ensures InOrder(Offers(a, windows))
  {
    if windows != [] {
      var front, w := windows[..|windows| - 1], windows[|windows| - 1];
      OffersInOrder(a, front);
      OffersAreOf(a, front);
      WindowInOrder(a, w);
      forall v | v in front ensures v.phase != w.phase {
        var m :| 0 <= m < |front| && front[m] == v;
        assert windows[m] == v;
      }
      InOrderTogether(Offers(a, front), OffersOf(w, Segment(a, w)));
    }
  }

  /** The whole plan is numbered from zero on without a gap; and up to a million users,
      of two calls of one phase the later in the plan is strictly the later in time, as
      the plan states times. */
  lemma PlanInOrder(a: Arguments, i: nat, j: nat)
    requires Valid(a) && i < j < |Plan(a)|
    ensures Plan(a)[i].number == i
    ensures a.users <= MICROSECONDS && Plan(a)[i].phase == Plan(a)[j].phase ==> Plan(a)[i].micros < Plan(a)[j].micros
  {
    PhasesAreDistinct(a);
    OffersInOrder(a, Phases(a));
    NumberedInOrder(a.users, Offers(a, Phases(a)), i, j);
  }

  lemma NumberedInOrder(users: nat, offers: seq<Offer>, i: nat, j: nat)
    requires users > 0 && InOrder(offers) && i < j < |offers|
    ensures var c, d := Numbered(users, offers)[i], Numbered(users, offers)[j];
            && c.number == i
            && (users <= MICROSECONDS && c.phase == d.phase ==> c.micros < d.micros)
  {
    if users <= MICROSECONDS && offers[i].window.phase == offers[j].window.phase {
      RoundingKeepsOrder(users, offers[i].row.tick, offers[j].row.tick);
    }
  }

  /* ---------------- the rates of the plan ---------------- */

  lemma {:induction false} InsertCounts<T>(key: T -> int, s: seq<T>, x: T, p: T -> bool)
    ensures CountIf(Insert(key, s, x), p) == CountIf(s, p) + if p(x) then 1 else 0
  {
    if s == [] || key(s[|s| - 1]) <= key(x) {
      AppendCounts(s, x, p);
    } else {
      InsertCounts(key, s[..|s| - 1], x, p);
      AppendCounts(Insert(key, s[..|s| - 1], x), s[|s| - 1], p);
    }
  }

  lemma {:induction false} SortingCounts<T>(key: T -> int, s: seq<T>, p: T -> bool)
    ensures CountIf(SortBy(key, s), p) == CountIf(s, p)
  {
    if s != [] {
      SortingCounts(key, s[..|s| - 1], p);
      InsertCounts(key, SortBy(key, s[..|s| - 1]), s[|s| - 1], p);
    }
  }

  /** The calls of a phase that the plan states in a second of its window. */
  function Stated(phase: Phase, s: nat): Call -> bool {
    (c: Call) => c.phase == phase && c.micros / MICROSECONDS == s
  }

  function OfferedIn(users: nat, phase: Phase, s: nat): Offer -> bool
    requires users > 0
  {
    (o: Offer) => o.window.phase == phase && SecondOf(users, o.row.tick) == s
  }

  lemma {:induction false} StatedCalls(users: nat, offers: seq<Offer>, phase: Phase, s: nat)
    requires 0 < users <= MICROSECONDS
    ensures CountIf(Numbered(users, offers), Stated(phase, s)) == CountIf(offers, OfferedIn(users, phase, s))
  {
    if offers != [] {
      var front, last := offers[..|offers| - 1], offers[|offers| - 1];
      StatedCalls(users, front, phase, s);
      assert offers == front + [last];
      OneMoreCall(users, front, last);
      AppendCounts(Numbered(users, front), CallOf(users, last, |front|), Stated(phase, s));
      RoundingKeepsTheSecond(users, last.row.tick);
    }
  }

  lemma {:induction false} OffersOfRows(users: nat, w: Window, rows: seq<Row>, phase: Phase, s: nat)
    requires users > 0
    ensures CountIf(OffersOf(w, rows), OfferedIn(users, phase, s))
         == if w.phase == phase then CountIf(rows, InSecond(users, s)) else 0
  {
    if rows != [] {
      var front, last := rows[..|rows| - 1], rows[|rows| - 1];
      OffersOfRows(users, w, front, phase, s);
      assert OffersOf(w, rows) == OffersOf(w, front) + [Offer(w, last)];
      AppendCounts(OffersOf(w, front), Offer(w, last), OfferedIn(users, phase, s));
    }
  }

  /** What one window adds to what is offered in a second of a phase. */
  lemma OffersOfWindow(a: Arguments, w: Window, phase: Phase, s: nat)
    requires Valid(a)
    ensures CountIf(OffersOf(w, Segment(a, w)), OfferedIn(a.users, phase, s))
         == if w.phase == phase && s < w.seconds then Rate(a, phase, s) else 0
  {
    OffersOfRows(a.users, w, Segment(a, w), phase, s);
    SortingCounts(TickOf, RowsOf(a, w.phase, w.seconds), InSecond(a.users, s));
    RateOfRows(a, w, s);
  }

  lemma {:induction false} OffersInAll(a: Arguments, windows: seq<Window>, w: Window, s: nat)
    requires Valid(a)
    requires DistinctPhases(windows) && (w in windows || forall v <- windows :: v.phase != w.phase)
    ensures CountIf(Offers(a, windows), OfferedIn(a.users, w.phase, s))
         == if w in windows && s < w.seconds then Rate(a, w.phase, s) else 0
  {
    if windows != [] {
      var front, last := windows[..|windows| - 1], windows[|windows| - 1];
      LastApart(windows, w);
      OffersInAll(a, front, w, s);
      CountsAddUp(Offers(a, front), OffersOf(last, Segment(a, last)), OfferedIn(a.users, w.phase, s));
      OffersOfWindow(a, last, w.phase, s);
    }
  }

  lemma LastApart(windows: seq<Window>, w: Window)
    requires windows != [] && DistinctPhases(windows) && (w in windows || forall v <- windows :: v.phase != w.phase)
    ensures var front, last := windows[..|windows| - 1], windows[|windows| - 1];
            && DistinctPhases(front)
            && (w in front || forall v <- front :: v.phase != w.phase)
            && (w in windows <==> w in front || last == w)
            && (last.phase == w.phase <==> last == w)
            && !(w in front && last == w)
  {
    var front, last := windows[..|windows| - 1], windows[|windows| - 1];
    assert windows == front + [last];
    if w in windows {
      var m :| 0 <= m < |windows| && windows[m] == w;
      assert m < |front| ==> front[m] == w;
      forall v | v in front ensures v.phase == w.phase ==> m < |front| {
        var n :| 0 <= n < |front| && front[n] == v;
        assert windows[n] == v;
      }
    }
  }

  /** In every second of every window the finished plan states as many calls as the
      phase's rate there, and none past its end, the rounding of instants included. */
  lemma PlanRate(a: Arguments, w: Window, s: nat)
    requires Valid(a) && a.users <= MICROSECONDS
    requires w in Phases(a)
    ensures CountIf(Plan(a), Stated(w.phase, s)) == if s < w.seconds then Rate(a, w.phase, s) else 0
  {
    PhasesAreDistinct(a);
    StatedCalls(a.users, Offers(a, Phases(a)), w.phase, s);
    OffersInAll(a, Phases(a), w, s);
  }

  /* ---------------- the windows of the plan ---------------- */

  /** The place of a phase in the cycle. */
  function Turn(phase: Phase): nat {
    match phase
    case LoginRamp => 0
    case FullWarmup => 1
    case FullMeasure1 => 2
    case Pause50 => 3
    case ReturnRamp => 4
    case FullMeasure2 => 5
  }

  predicate InTurn(offers: seq<Offer>) {
    forall i, j :: 0 <= i < j < |offers| ==> Turn(offers[i].window.phase) <= Turn(offers[j].window.phase)
  }

  lemma {:induction false} OffersInTurn(a: Arguments, windows: seq<Window>)
    requires forall m, n :: 0 <= m < n < |windows| ==> Turn(windows[m].phase) <= Turn(windows[n].phase)
    ensures InTurn(Offers(a, windows))
  {
    if windows != [] {
      var front, w := windows[..|windows| - 1], windows[|windows| - 1];
      OffersInTurn(a, front);
      OffersAreOf(a, front);
      forall o | o in Offers(a, front) ensures Turn(o.window.phase) <= Turn(w.phase) {
        var m :| 0 <= m < |front| && front[m] == o.window;
        assert windows[m] == o.window;
      }
    }
  }

  function OfPlanPhase(phase: Phase): Call -> bool {
    (c: Call) => c.phase == phase
  }

  function OfOfferPhase(phase: Phase): Offer -> bool {
    (o: Offer) => o.window.phase == phase
  }

  lemma {:induction false} NumberingCounts(users: nat, offers: seq<Offer>, phase: Phase)
    requires users > 0
    ensures CountIf(Numbered(users, offers), OfPlanPhase(phase)) == CountIf(offers, OfOfferPhase(phase))
  {
    if offers != [] {
      var front, last := offers[..|offers| - 1], offers[|offers| - 1];
      NumberingCounts(users, front, phase);
      assert offers == front + [last];
      OneMoreCall(users, front, last);
      AppendCounts(Numbered(users, front), CallOf(users, last, |front|), OfPlanPhase(phase));
    }
  }

  lemma {:induction false} AllOfOneWindow(w: Window, rows: seq<Row>, phase: Phase)
    ensures CountIf(OffersOf(w, rows), OfOfferPhase(phase)) == if w.phase == phase then |rows| else 0
  {
    if rows != [] {
      var front, last := rows[..|rows| - 1], rows[|rows| - 1];
      AllOfOneWindow(w, front, phase);
      assert OffersOf(w, rows) == OffersOf(w, front) + [Offer(w, last)];
      AppendCounts(OffersOf(w, front), Offer(w, last), OfOfferPhase(phase));
    }
  }

  lemma SegmentLength(a: Arguments, w: Window)
    ensures |Segment(a, w)| == |RowsOf(a, w.phase, w.seconds)|
  {
    SortByIsSorted(TickOf, RowsOf(a, w.phase, w.seconds));
    assert |multiset(Segment(a, w))| == |Segment(a, w)|;
    assert |multiset(RowsOf(a, w.phase, w.seconds))| == |RowsOf(a, w.phase, w.seconds)|;
  }

  /** The windows that are of a phase put their rows into the plan, and no others. */
  lemma {:induction false} OffersOfPhase(a: Arguments, windows: seq<Window>, w: Window)
    requires DistinctPhases(windows) && (w in windows || forall v <- windows :: v.phase != w.phase)
    ensures CountIf(Offers(a, windows), OfOfferPhase(w.phase))
         == if w in windows then |RowsOf(a, w.phase, w.seconds)| else 0
  {
    if windows != [] {
      var front, last := windows[..|windows| - 1], windows[|windows| - 1];
      LastApart(windows, w);
      OffersOfPhase(a, front, w);
      CountsAddUp(Offers(a, front), OffersOf(last, Segment(a, last)), OfOfferPhase(w.phase));
      AllOfOneWindow(last, Segment(a, last), w.phase);
      SegmentLength(a, last);
    }
  }

  /** How many calls the plan has in a phase. */
  function CallsIn(a: Arguments, phase: Phase): nat
    requires Valid(a)
  {
    CountIf(Plan(a), OfPlanPhase(phase))
  }

  lemma CallsOfWindow(a: Arguments, w: Window)
    requires Valid(a) && w in Phases(a)
    ensures CallsIn(a, w.phase) == |RowsOf(a, w.phase, w.seconds)|
  {
    PhasesAreDistinct(a);
    NumberingCounts(a.users, Offers(a, Phases(a)), w.phase);
    OffersOfPhase(a, Phases(a), w);
  }

  /** The plan runs through the six phases in their turn, each once, and has of each as
      many calls as its users make at one a second over the length asked for. */
  lemma PlanTotals(a: Arguments)
    requires Valid(a)
    ensures forall i, j :: 0 <= i < j < |Plan(a)| ==> Turn(Plan(a)[i].phase) <= Turn(Plan(a)[j].phase)
    ensures CallsIn(a, FullWarmup) == a.users * a.warmup
    ensures CallsIn(a, FullMeasure1) == CallsIn(a, FullMeasure2) == a.users * a.measure
    ensures CallsIn(a, Pause50) == (a.users - |a.pausedOrder|) * a.pause
    ensures var n, d := a.users, a.loginPeriod;
            2 * CallsIn(a, LoginRamp) == if d == 0 then 0 else d * n * (n + 1) - 2 * n
    ensures var m, d := |a.pausedOrder|, a.returnPeriod;
            2 * CallsIn(a, ReturnRamp) ==
            if d == 0 then 0 else 2 * (a.users - m) * ((m + 1) * d) + d * (m * (m + 3)) - 2 * m
  {
    OffersInTurn(a, Phases(a));
    forall k: nat | k < 6 ensures CallsIn(a, Phases(a)[k].phase) == |RowsOf(a, Phases(a)[k].phase, Phases(a)[k].seconds)| {
      CallsOfWindow(a, Phases(a)[k]);
    }
    SteadyTotals(a, Phases(a)[1].phase, Phases(a)[1].seconds);
    SteadyTotals(a, Phases(a)[2].phase, Phases(a)[2].seconds);
    SteadyTotals(a, Phases(a)[3].phase, Phases(a)[3].seconds);
    SteadyTotals(a, Phases(a)[5].phase, Phases(a)[5].seconds);
    RampTotals(a);
    assert Phases(a)[0].phase == LoginRamp && Phases(a)[4].phase == ReturnRamp;
  }

  /* ---------------- who calls when ---------------- */

  /** Whether a user calls in this second of the phase, while its window lasts: on the
      login ramp one second after its entry, on the return ramp, if it was paused, one
      second after it came back, in the order drawn; not at all while it pauses. */
  predicate CallsAt(a: Arguments, phase: Phase, user: nat, s: nat) {
    match phase
    case LoginRamp => user * a.loginPeriod + 1 <= s
    case Pause50 => user !in a.pausedOrder
    case ReturnRamp =>
      forall k :: 0 <= k < |a.pausedOrder| && a.pausedOrder[k] == user ==> k * a.returnPeriod + 1 <= s
    case _ => true
  }

  lemma CallingIsCallsAt(a: Arguments, phase: Phase, user: nat, s: nat)
    requires Valid(a)
    ensures Calling(StartsOf(a, phase), user, s) <==> CallsAt(a, phase, user, s)
  {
    ProductIsProduct(a.loginPeriod, user);
    if phase == ReturnRamp {
      var k := PositionOf(a.pausedOrder, user);
      ProductIsProduct(a.returnPeriod, k);
      if k < |a.pausedOrder| {
        assert a.pausedOrder[k] == user;
        forall i | 0 <= i < |a.pausedOrder| && a.pausedOrder[i] == user ensures i == k {
        }
      }
    }
  }

  lemma SegmentHas(a: Arguments, w: Window, r: Row)
    ensures r in Segment(a, w) <==> r in RowsOf(a, w.phase, w.seconds)
  {
    SortByIsSorted(TickOf, RowsOf(a, w.phase, w.seconds));
    assert r in Segment(a, w) <==> r in multiset(Segment(a, w));
  }

  lemma {:induction false} OffersHave(a: Arguments, windows: seq<Window>, o: Offer)
    ensures o in Offers(a, windows) <==> o.window in windows && o.row in RowsOf(a, o.window.phase, o.window.seconds)
  {
    if windows != [] {
      var front, w := windows[..|windows| - 1], windows[|windows| - 1];
      OffersHave(a, front, o);
      SegmentHas(a, w, o.row);
      var rows := Segment(a, w);
      if o.window == w && o.row in rows {
        var i :| 0 <= i < |rows| && rows[i] == o.row;
        assert OffersOf(w, rows)[i] == o;
      }
      assert windows == front + [w];
      assert o in OffersOf(w, rows) <==> o.window == w && o.row in rows;
    }
  }

  /** A call of the plan that a user makes in a second of a phase. */
  predicate Makes(c: Call, phase: Phase, user: nat, s: nat) {
    c.phase == phase && c.user == user && c.micros / MICROSECONDS == s
  }

  lemma OneWindowPerPhase(windows: seq<Window>, v: Window, w: Window)
    requires DistinctPhases(windows) && v in windows && w in windows && v.phase == w.phase
    ensures v == w
  {
    var m :| 0 <= m < |windows| && windows[m] == v;
    var n :| 0 <= n < |windows| && windows[n] == w;
    assert m == n;
  }

  /** Every call of the plan is a row of the one window of its phase. */
  lemma RowOfCall(a: Arguments, i: nat, w: Window)
    requires Valid(a) && 0 < a.users <= MICROSECONDS && i < |Plan(a)| && w in Phases(a) && Plan(a)[i].phase == w.phase
    ensures var c := Plan(a)[i]; var s := c.micros / MICROSECONDS;
            && c.user < a.users && c.rate == w.rate
            && c.micros == Micros(a.users, Tick(a.users, s, c.user))
            && s < w.seconds && Calling(StartsOf(a, w.phase), c.user, s)
  {
    var o := Offers(a, Phases(a))[i];
    assert o in Offers(a, Phases(a));
    OffersHave(a, Phases(a), o);
    PhasesAreDistinct(a);
    OneWindowPerPhase(Phases(a), o.window, w);
    RowsAre(a, w.phase, w.seconds, o.row);
    RoundingKeepsTheSecond(a.users, o.row.tick);
  }

  lemma CallOfRow(a: Arguments, w: Window, user: nat, s: nat)
    requires Valid(a) && 0 < a.users <= MICROSECONDS && w in Phases(a) && user < a.users
    requires s < w.seconds && Calling(StartsOf(a, w.phase), user, s)
    ensures exists i :: 0 <= i < |Plan(a)| && Makes(Plan(a)[i], w.phase, user, s)
  {
    var r := Row(Tick(a.users, s, user), user);
    var o := Offer(w, r);
    TickParts(a.users, s, user);
    RowsAre(a, w.phase, w.seconds, r);
    OffersHave(a, Phases(a), o);
    var i :| 0 <= i < |Offers(a, Phases(a))| && Offers(a, Phases(a))[i] == o;
    RoundingKeepsTheSecond(a.users, r.tick);
    assert Makes(Plan(a)[i], w.phase, user, s);
  }

  /** The finished plan has a call of a user in a second of a window exactly if the user
      calls then. */
  lemma WhoCallsWhen(a: Arguments, w: Window, user: nat, s: nat)
    requires Valid(a) && a.users <= MICROSECONDS && w in Phases(a) && user < a.users
    ensures (exists i :: 0 <= i < |Plan(a)| && Makes(Plan(a)[i], w.phase, user, s))
       <==> s < w.seconds && CallsAt(a, w.phase, user, s)
  {
    CallingIsCallsAt(a, w.phase, user, s);
    if s < w.seconds && CallsAt(a, w.phase, user, s) {
      CallOfRow(a, w, user, s);
    }
    if i :| 0 <= i < |Plan(a)| && Makes(Plan(a)[i], w.phase, user, s) {
      RowOfCall(a, i, w);
    }
  }

  /** And every call is offered with the rate of its window, at its user's own slot of its
      second. */
  lemma CallsKeepTheirSlots(a: Arguments, w: Window, i: nat)
    requires Valid(a) && a.users <= MICROSECONDS && w in Phases(a) && i < |Plan(a)| && Plan(a)[i].phase == w.phase
    ensures var c := Plan(a)[i];
            c.rate == w.rate && c.micros == Micros(a.users, c.micros / MICROSECONDS * a.users + c.user)
  {
    RowOfCall(a, i, w);
    ProductIsProduct(a.users, Plan(a)[i].micros / MICROSECONDS);
  }

  /* ---------------- how many users six digits can tell apart ---------------- */

  /** The rows of the phase keep distinct instants when rounded. */
  ghost predicate ToldApart(a: Arguments, phase: Phase, until: nat) {
    forall r, q :: r in RowsOf(a, phase, until) && q in RowsOf(a, phase, until) && r != q ==>
      Micros(a.users, r.tick) != Micros(a.users, q.tick)
  }

  lemma RoundedApart(a: Arguments, phase: Phase, until: nat, r: Row, q: Row)
    requires Valid(a) && a.users <= MICROSECONDS
    requires r in RowsOf(a, phase, until) && q in RowsOf(a, phase, until) && r != q
    ensures Micros(a.users, r.tick) != Micros(a.users, q.tick)
  {
    RowsAre(a, phase, until, r);
    RowsAre(a, phase, until, q);
    OneUserPerTick(a.users, StartsOf(a, phase), until, r, q);
    if r.tick < q.tick {
      RoundingKeepsOrder(a.users, r.tick, q.tick);
    } else {
      RoundingKeepsOrder(a.users, q.tick, r.tick);
    }
  }

  lemma OneUserPerTick(users: nat, starts: Starts, until: nat, r: Row, q: Row)
    requires Belongs(users, starts, until, r) && Belongs(users, starts, until, q)
    ensures r.tick == q.tick ==> r == q
  {
  }

  /** Every slot of the first second of a full phase has its row. */
  lemma FirstSecondIsFull(a: Arguments, phase: Phase, until: nat, t: nat)
    requires Valid(a) && phase in {FullWarmup, FullMeasure1, FullMeasure2} && until > 0 && t < a.users
    ensures Row(t, t) in RowsOf(a, phase, until)
  {
    TickParts(a.users, 0, t);
    RowsAre(a, phase, until, Row(t, t));
  }

  lemma AMillionAreToldApart(a: Arguments, phase: Phase, until: nat)
    requires Valid(a) && a.users <= MICROSECONDS
    ensures ToldApart(a, phase, until)
  {
    forall r, q | r in RowsOf(a, phase, until) && q in RowsOf(a, phase, until) && r != q
      ensures Micros(a.users, r.tick) != Micros(a.users, q.tick)
    {
      RoundedApart(a, phase, until, r, q);
    }
  }

  lemma MoreAreNot(a: Arguments, phase: Phase, until: nat, t: nat)
    requires Valid(a) && Collide(a.users, t)
    requires Row(t, t) in RowsOf(a, phase, until) && Row(t + 1, t + 1) in RowsOf(a, phase, until)
    ensures !ToldApart(a, phase, until)
  {
    assert Row(t, t) != Row(t + 1, t + 1);
  }

  lemma NeighboursCollide(a: Arguments, phase: Phase, until: nat, t: nat)
    requires Valid(a) && phase in {FullWarmup, FullMeasure1, FullMeasure2} && until > 0
    requires Collide(a.users, t)
    ensures !ToldApart(a, phase, until)
  {
    FirstSecondIsFull(a, phase, until, t);
    FirstSecondIsFull(a, phase, until, t + 1);
    MoreAreNot(a, phase, until, t);
  }

  /** Six digits tell the rows of a full phase apart exactly up to a million users. */
  lemma SixDigitsTellAMillionApart(a: Arguments, phase: Phase, until: nat)
    requires Valid(a) && phase in {FullWarmup, FullMeasure1, FullMeasure2} && until > 0
    ensures ToldApart(a, phase, until) <==> a.users <= MICROSECONDS
  {
    if a.users <= MICROSECONDS {
      AMillionAreToldApart(a, phase, until);
    } else {
      RoundingMustCollide(a.users);
      var t :| Collide(a.users, t);
      NeighboursCollide(a, phase, until, t);
    }
  }
}
