/** What the plan promises: its rates, second by second, its totals, and its order. */
module PlanRates {
  import opened Counting
  import opened PlanInstants
  import opened CyclePlan

  /* ---------------- which rows there are ---------------- */

  /** The row is the call of a user at its slot of a second, from its first one on. */
  predicate Belongs(users: nat, starts: Starts, until: nat, r: Row) {
    && r.user < users
    && r.tick == Tick(users, SecondOf(users, r.tick), r.user)
    && Calling(starts, r.user, SecondOf(users, r.tick)) && SecondOf(users, r.tick) < until
  }

  predicate Calling(starts: Starts, user: nat, s: nat) {
    starts(user).Some? && starts(user).value <= s
  }

  lemma {:induction false} UserRowsAre(users: nat, user: nat, first: nat, until: nat, r: Row)
    requires user < users
    ensures r in UserRows(users, user, first, until)
       <==> (r.user == user && r.tick == Tick(users, SecondOf(users, r.tick), user)
             && first <= SecondOf(users, r.tick) < until)
  {
    if until > first {
      UserRowsAre(users, user, first, until - 1, r);
      TickParts(users, until - 1, user);
    }
  }

  lemma RowsOfUserAre(users: nat, starts: Starts, until: nat, user: nat, r: Row)
    requires user < users
    ensures r in RowsOfUser(users, starts, until, user) <==> r.user == user && Belongs(users, starts, until, r)
  {
    match starts(user)
    case None =>
    case Some(first) => UserRowsAre(users, user, first, until, r);
  }

  lemma {:induction false} RowsUpToHave(users: nat, starts: Starts, until: nat, n: nat, r: Row, belongs: bool)
    requires n <= users
    requires forall u: nat :: u < users ==> (r in RowsOfUser(users, starts, until, u) <==> r.user == u && belongs)
    ensures r in RowsUpTo(users, starts, until, n) <==> r.user < n && belongs
  {
    if n > 0 {
      RowsUpToHave(users, starts, until, n - 1, r, belongs);
      assert r in RowsOfUser(users, starts, until, n - 1) <==> r.user == n - 1 && belongs;
    }
  }

  lemma RowsUpToAre(users: nat, starts: Starts, until: nat, n: nat, r: Row)
    requires n <= users
    ensures r in RowsUpTo(users, starts, until, n) <==> r.user < n && Belongs(users, starts, until, r)
  {
    var belongs := Belongs(users, starts, until, r);
    forall u: nat | u < users ensures r in RowsOfUser(users, starts, until, u) <==> r.user == u && belongs {
      RowsOfUserAre(users, starts, until, u, r);
    }
    RowsUpToHave(users, starts, until, n, r, belongs);
  }

  /** A phase holds exactly the rows that belong to it: every user calls at its own slot
      of each second from its first to the end of the window, and at no other time. */
  lemma RowsAre(a: Arguments, phase: Phase, until: nat, r: Row)
    ensures r in RowsOf(a, phase, until) <==> Belongs(a.users, StartsOf(a, phase), until, r)
  {
    RowsUpToAre(a.users, StartsOf(a, phase), until, a.users, r);
  }

  /* ---------------- how many a second ---------------- */

  function InSecond(users: nat, s: nat): Row -> bool
    requires users > 0
  {
    (r: Row) => SecondOf(users, r.tick) == s
  }

  lemma {:induction false} UserRowsPerSecond(users: nat, user: nat, first: nat, until: nat, s: nat)
    requires user < users
    ensures CountIf(UserRows(users, user, first, until), InSecond(users, s)) == if first <= s < until then 1 else 0
  {
    if until > first {
      UserRowsPerSecond(users, user, first, until - 1, s);
      TickParts(users, until - 1, user);
      AppendCounts(UserRows(users, user, first, until - 1), Row(Tick(users, until - 1, user), user), InSecond(users, s));
    }
  }

  /** How many of the first `n` users call in a second. */
  function Callers(starts: Starts, n: nat, s: nat): nat {
    if n == 0 then 0 else Callers(starts, n - 1, s) + if Calling(starts, n - 1, s) then 1 else 0
  }

  lemma RowsOfUserPerSecond(users: nat, starts: Starts, until: nat, user: nat, s: nat)
    requires user < users
    ensures CountIf(RowsOfUser(users, starts, until, user), InSecond(users, s))
         == if Calling(starts, user, s) && s < until then 1 else 0
  {
    match starts(user)
    case None =>
    case Some(first) => UserRowsPerSecond(users, user, first, until, s);
  }

  lemma CountOneMoreUser(users: nat, starts: Starts, until: nat, n: nat, p: Row -> bool)
    requires 0 < n <= users
    ensures CountIf(RowsUpTo(users, starts, until, n), p)
         == CountIf(RowsUpTo(users, starts, until, n - 1), p) + CountIf(RowsOfUser(users, starts, until, n - 1), p)
  {
    CountsAddUp(RowsUpTo(users, starts, until, n - 1), RowsOfUser(users, starts, until, n - 1), p);
  }

  /** How many of the rows of the first `n` users meet a condition, user by user. */
  function SumOf(own: nat -> nat, n: nat): nat {
    if n == 0 then 0 else SumOf(own, n - 1) + own(n - 1)
  }

  lemma {:induction false} CountUserByUser(users: nat, starts: Starts, until: nat, n: nat, p: Row -> bool, own: nat -> nat)
    requires n <= users
    requires forall u: nat :: u < users ==> CountIf(RowsOfUser(users, starts, until, u), p) == own(u)
    ensures CountIf(RowsUpTo(users, starts, until, n), p) == SumOf(own, n)
  {
    if n > 0 {
      CountUserByUser(users, starts, until, n - 1, p, own);
      CountOneMoreUser(users, starts, until, n, p);
      assert CountIf(RowsOfUser(users, starts, until, n - 1), p) == own(n - 1);
    }
  }

  lemma {:induction false} CallersAsSum(starts: Starts, n: nat, s: nat, own: nat -> nat)
    requires forall u: nat :: own(u) == if Calling(starts, u, s) then 1 else 0
    ensures SumOf(own, n) == Callers(starts, n, s)
  {
    if n > 0 {
      CallersAsSum(starts, n - 1, s, own);
    }
  }

  lemma {:induction false} NobodyCalls(n: nat, own: nat -> nat)
    requires forall u: nat :: own(u) == 0
    ensures SumOf(own, n) == 0
  {
    if n > 0 {
      NobodyCalls(n - 1, own);
    }
  }

  lemma RowsPerSecond(users: nat, starts: Starts, until: nat, n: nat, s: nat)
    requires n <= users && 0 < users
    ensures CountIf(RowsUpTo(users, starts, until, n), InSecond(users, s))
         == if s < until then Callers(starts, n, s) else 0
  {
    var own: nat -> nat := u => if Calling(starts, u, s) && s < until then 1 else 0;
    forall u: nat | u < users ensures CountIf(RowsOfUser(users, starts, until, u), InSecond(users, s)) == own(u) {
      RowsOfUserPerSecond(users, starts, until, u, s);
    }
    CountUserByUser(users, starts, until, n, InSecond(users, s), own);
    if s < until {
      CallersAsSum(starts, n, s, own);
    } else {
      NobodyCalls(n, own);
    }
  }

  /* ---------------- in closed form ---------------- */

  /** How many of the members of a ramp have entered and call by a second. */
  function Entered(members: nat, period: nat, s: nat): nat {
    if s == 0 then 0
    else if period == 0 || members <= Quotient(s - 1, period) + 1 then members
    else Quotient(s - 1, period) + 1
  }

  lemma EnteredInTime(j: nat, members: nat, period: nat, s: nat)
    requires j < members
    ensures Product(period, j) + 1 <= s <==> j < Entered(members, period, s)
  {
    if period == 0 {
      ProductIsProduct(period, j);
    } else if s > 0 {
      var q := Quotient(s - 1, period);
      if q < j {
        Gap(period, q, j);
      } else if j < q {
        Gap(period, j, q);
      }
    }
  }

  /** Who does not call in a second, each once. */
  function Silent(a: Arguments, phase: Phase, s: nat): seq<nat>
    requires Valid(a)
  {
    match phase
    case LoginRamp =>
      var entered := Entered(a.users, a.loginPeriod, s);
      seq(a.users - entered, k requires k >= 0 => entered + k)
    case Pause50 => a.pausedOrder
    case ReturnRamp => a.pausedOrder[Entered(|a.pausedOrder|, a.returnPeriod, s)..]
    case _ => []
  }

  lemma SilentIsNotCalling(a: Arguments, phase: Phase, user: nat, s: nat)
    requires Valid(a) && user < a.users
    ensures user in Silent(a, phase, s) <==> !Calling(StartsOf(a, phase), user, s)
  {
    match phase
    case LoginRamp =>
      var entered := Entered(a.users, a.loginPeriod, s);
      EnteredInTime(user, a.users, a.loginPeriod, s);
      if user >= entered {
        assert Silent(a, phase, s)[user - entered] == user;
      }
    case ReturnRamp =>
      if user in a.pausedOrder {
        var position := PositionOf(a.pausedOrder, user);
        var back := Entered(|a.pausedOrder|, a.returnPeriod, s);
        EnteredInTime(position, |a.pausedOrder|, a.returnPeriod, s);
        if position >= back {
          assert Silent(a, phase, s)[position - back] == user;
        }
      }
    case _ =>
  }

  lemma SilentIsDistinct(a: Arguments, phase: Phase, s: nat)
    requires Valid(a)
    ensures var silent := Silent(a, phase, s);
            && (forall i, j :: 0 <= i < j < |silent| ==> silent[i] != silent[j])
            && (forall i :: 0 <= i < |silent| ==> silent[i] < a.users)
  {
    var silent := Silent(a, phase, s);
    match phase
    case LoginRamp =>
      var entered := Entered(a.users, a.loginPeriod, s);
      assert forall i :: 0 <= i < |silent| ==> silent[i] == entered + i;
    case ReturnRamp =>
      var back := Entered(|a.pausedOrder|, a.returnPeriod, s);
      assert forall i :: 0 <= i < |silent| ==> silent[i] == a.pausedOrder[back + i] && silent[i] in a.pausedOrder;
    case Pause50 =>
      assert forall i :: 0 <= i < |silent| ==> silent[i] in a.pausedOrder;
    case _ =>
  }

  function Below(n: nat): set<nat> {
    if n == 0 then {} else Below(n - 1) + {n - 1}
  }

  function CallersBelow(starts: Starts, n: nat, s: nat): set<nat> {
    if n == 0 then {} else CallersBelow(starts, n - 1, s) + if Calling(starts, n - 1, s) then {n - 1} else {}
  }

  lemma {:induction false} BelowIs(n: nat)
    ensures forall u: nat :: u in Below(n) <==> u < n
    ensures |Below(n)| == n
  {
    if n > 0 {
      BelowIs(n - 1);
      assert n - 1 !in Below(n - 1);
    }
  }

  lemma {:induction false} CallersAreCounted(starts: Starts, n: nat, s: nat)
    ensures forall u: nat :: u in CallersBelow(starts, n, s) <==> u < n && Calling(starts, u, s)
    ensures |CallersBelow(starts, n, s)| == Callers(starts, n, s)
  {
    if n > 0 {
      CallersAreCounted(starts, n - 1, s);
    }
  }

  function Members(s: seq<nat>): set<nat> {
    set x <- s
  }

  lemma {:induction false} DistinctSize(s: seq<nat>)
    requires forall i, j :: 0 <= i < j < |s| ==> s[i] != s[j]
    ensures |Members(s)| == |s|
  {
    if s == [] {
      assert Members(s) == {};
    } else {
      var front, last := s[..|s| - 1], s[|s| - 1];
      DistinctSize(front);
      assert last !in front;
      assert Members(s) == Members(front) + {last};
    }
  }

  /** Whoever is not among the silent calls. */
  lemma CallersAndSilent(starts: Starts, users: nat, s: nat, silent: seq<nat>)
    requires forall i, j :: 0 <= i < j < |silent| ==> silent[i] != silent[j]
    requires forall i :: 0 <= i < |silent| ==> silent[i] < users
    requires forall u: nat :: u < users ==> (u in silent <==> !Calling(starts, u, s))
    ensures Callers(starts, users, s) == users - |silent|
  {
    DistinctSize(silent);
    CallersAreCounted(starts, users, s);
    BelowIs(users);
    assert CallersBelow(starts, users, s) == Below(users) - Members(silent);
    assert Members(silent) <= Below(users);
  }

  /** Requests in a second of a window: everybody's in the full phases, everybody's but
      the paused users' in the pause, and those of the users that have entered, or come
      back, on the ramps. */
  function Rate(a: Arguments, phase: Phase, s: nat): nat
    requires Valid(a)
  {
    match phase
    case LoginRamp => Entered(a.users, a.loginPeriod, s)
    case Pause50 => a.users - |a.pausedOrder|
    case ReturnRamp => a.users - |a.pausedOrder| + Entered(|a.pausedOrder|, a.returnPeriod, s)
    case _ => a.users
  }

  lemma RateOfRows(a: Arguments, w: Window, s: nat)
    requires Valid(a)
    ensures CountIf(RowsOf(a, w.phase, w.seconds), InSecond(a.users, s))
         == if s < w.seconds then Rate(a, w.phase, s) else 0
  {
    var starts := StartsOf(a, w.phase);
    RowsPerSecond(a.users, starts, w.seconds, a.users, s);
    var silent := Silent(a, w.phase, s);
    forall u: nat | u < a.users ensures u in silent <==> !Calling(starts, u, s) {
      SilentIsNotCalling(a, w.phase, u, s);
    }
    SilentIsDistinct(a, w.phase, s);
    CallersAndSilent(starts, a.users, s, silent);
  }

  /** With unit periods: `s` requests in second `s` of the login ramp, and one more each
      second on the return ramp, up to everybody in its last second. */
  lemma UnitRates(a: Arguments, s: nat)
    requires Valid(a) && a.loginPeriod == a.returnPeriod == 1
    ensures s < a.users ==> Rate(a, LoginRamp, s) == s
    ensures s <= |a.pausedOrder| ==> Rate(a, ReturnRamp, s) == a.users - |a.pausedOrder| + s
    ensures Rate(a, ReturnRamp, |a.pausedOrder|) == a.users
  {
    if s > 0 {
      QuotientIsQuotient(s - 1, 1);
    }
    if a.pausedOrder != [] {
      QuotientIsQuotient(|a.pausedOrder| - 1, 1);
    }
  }

  lemma EnteredByTheEnd(members: nat, period: nat, s: nat)
    requires period > 0 && s + 1 == Product(period, members)
    ensures Entered(members, period, s) == if period == 1 && members > 0 then members - 1 else members
  {
    if members > 0 {
      if period == 1 {
        ProductIsProduct(1, members);
        if s > 0 {
          QuotientIsQuotient(s - 1, 1);
        }
      } else {
        OnlyQuotient(s - 1, period, members - 1);
      }
    }
  }

  lemma EnteredOneLater(members: nat, period: nat, s: nat)
    requires period > 0 && s + 1 == Product(period, members + 1)
    ensures Entered(members, period, s) == members
  {
    if members > 0 {
      EnteredInTime(members - 1, members, period, s);
      assert Product(period, members - 1) + 1 <= s;
    }
  }

  /** Whatever the whole periods, the rate a window declares is never exceeded and reached
      in its last second, but for a login ramp of unit period, which ends one short. */
  lemma DeclaredRateIsThePeak(a: Arguments, w: Window, s: nat)
    requires Valid(a) && w in Phases(a) && s < w.seconds
    ensures Rate(a, w.phase, s) <= w.rate
    ensures s == w.seconds - 1 ==>
              Rate(a, w.phase, s) == if w.phase == LoginRamp && a.loginPeriod == 1 then w.rate - 1 else w.rate
  {
    ProductIsProduct(0, a.users);
    ProductIsProduct(0, |a.pausedOrder| + 1);
    if s == w.seconds - 1 {
      if w.phase == LoginRamp {
        EnteredByTheEnd(a.users, a.loginPeriod, s);
      } else if w.phase == ReturnRamp {
        EnteredOneLater(|a.pausedOrder|, a.returnPeriod, s);
      }
    }
  }

  /** The login ramp comes to the rate it declares exactly if its period is longer than
      one second. */
  lemma LoginRampReachesItsRate(a: Arguments)
    requires Valid(a)
    ensures (exists s: nat :: s < Product(a.loginPeriod, a.users) && Rate(a, LoginRamp, s) == a.users)
       <==> a.loginPeriod > 1
  {
    var w := Phases(a)[0];
    assert w in Phases(a) && w == Window(LoginRamp, a.users, Product(a.loginPeriod, a.users));
    if a.loginPeriod == 0 {
      ProductIsProduct(0, a.users);
    } else if a.loginPeriod == 1 {
      ProductIsProduct(1, a.users);
      forall s: nat | s < a.users ensures Rate(a, LoginRamp, s) < a.users {
        if s > 0 {
          QuotientIsQuotient(s - 1, 1);
        }
      }
    } else {
      assert Product(a.loginPeriod, a.users) == Product(a.loginPeriod, a.users - 1) + a.loginPeriod;
      DeclaredRateIsThePeak(a, w, w.seconds - 1);
    }
  }

  /* ---------------- totals ---------------- */

  /** The requests of the first `seconds` seconds at the rate of each. */
  function Requests(a: Arguments, phase: Phase, seconds: nat): nat
    requires Valid(a)
  {
    if seconds == 0 then 0 else Requests(a, phase, seconds - 1) + Rate(a, phase, seconds - 1)
  }

  function Before(users: nat, s: nat): Row -> bool
    requires users > 0
  {
    (r: Row) => SecondOf(users, r.tick) < s
  }

  lemma {:induction false} OneMoreSecond(users: nat, rows: seq<Row>, s: nat)
    requires users > 0
    ensures CountIf(rows, Before(users, s + 1)) == CountIf(rows, Before(users, s)) + CountIf(rows, InSecond(users, s))
  {
    if rows != [] {
      OneMoreSecond(users, rows[..|rows| - 1], s);
    }
  }

  lemma {:induction false} NoneOrAll<T>(rows: seq<T>, p: T -> bool)
    ensures (forall r <- rows :: p(r)) ==> CountIf(rows, p) == |rows|
    ensures (forall r <- rows :: !p(r)) ==> CountIf(rows, p) == 0
  {
    if rows != [] {
      var front := rows[..|rows| - 1];
      NoneOrAll(front, p);
      assert rows[|rows| - 1] in rows && forall r <- front :: r in rows;
    }
  }

  /** The requests of the first seconds add up, whatever rows bring them. */
  lemma {:induction false} SecondsAddUp(a: Arguments, phase: Phase, rows: seq<Row>, seconds: nat)
    requires Valid(a)
    requires forall s: nat :: s < seconds ==> CountIf(rows, InSecond(a.users, s)) == Rate(a, phase, s)
    ensures CountIf(rows, Before(a.users, seconds)) == Requests(a, phase, seconds)
  {
    if seconds == 0 {
      NoneOrAll(rows, Before(a.users, 0));
    } else {
      SecondsAddUp(a, phase, rows, seconds - 1);
      OneMoreSecond(a.users, rows, seconds - 1);
    }
  }

  /** A window holds the requests of its seconds and no more. */
  lemma WindowTotal(a: Arguments, w: Window)
    requires Valid(a)
    ensures |RowsOf(a, w.phase, w.seconds)| == Requests(a, w.phase, w.seconds)
  {
    var rows := RowsOf(a, w.phase, w.seconds);
    forall s: nat | s < w.seconds ensures CountIf(rows, InSecond(a.users, s)) == Rate(a, w.phase, s) {
      RateOfRows(a, w, s);
    }
    SecondsAddUp(a, w.phase, rows, w.seconds);
    forall r | r in rows ensures Before(a.users, w.seconds)(r) {
      RowsAre(a, w.phase, w.seconds, r);
    }
    NoneOrAll(rows, Before(a.users, w.seconds));
  }

  /** The full phases and the pause run at one rate throughout. */
  lemma {:induction false} SteadyRequests(a: Arguments, seconds: nat)
    requires Valid(a)
    ensures Requests(a, FullWarmup, seconds) == Requests(a, FullMeasure1, seconds) == Product(a.users, seconds)
    ensures Requests(a, FullMeasure2, seconds) == Product(a.users, seconds)
    ensures Requests(a, Pause50, seconds) == Product(a.users - |a.pausedOrder|, seconds)
  {
    if seconds > 0 {
      SteadyRequests(a, seconds - 1);
    }
  }

  /** What a ramp adds over its first seconds. */
  function EnteredOver(members: nat, period: nat, seconds: nat): nat {
    if seconds == 0 then 0 else EnteredOver(members, period, seconds - 1) + Entered(members, period, seconds - 1)
  }

  lemma {:induction false} RampRequests(a: Arguments, seconds: nat)
    requires Valid(a)
    ensures Requests(a, LoginRamp, seconds) == EnteredOver(a.users, a.loginPeriod, seconds)
    ensures Requests(a, ReturnRamp, seconds)
         == Product(a.users - |a.pausedOrder|, seconds) + EnteredOver(|a.pausedOrder|, a.returnPeriod, seconds)
  {
    if seconds > 0 {
      RampRequests(a, seconds - 1);
    }
  }

  lemma OneMoreMember(members: nat, period: nat, s: nat)
    ensures Entered(members + 1, period, s)
         == Entered(members, period, s) + if Product(period, members) + 1 <= s then 1 else 0
  {
    EnteredInTime(members, members + 1, period, s);
  }

  lemma {:induction false} OneMoreMemberOver(members: nat, period: nat, seconds: nat)
    ensures EnteredOver(members + 1, period, seconds)
         == EnteredOver(members, period, seconds)
            + if Product(period, members) + 1 <= seconds then seconds - Product(period, members) - 1 else 0
  {
    if seconds > 0 {
      OneMoreMemberOver(members, period, seconds - 1);
      OneMoreMember(members, period, seconds - 1);
    }
  }

  lemma {:induction false} NoMembersOver(period: nat, seconds: nat)
    ensures EnteredOver(0, period, seconds) == 0
  {
    if seconds > 0 {
      NoMembersOver(period, seconds - 1);
    }
  }

  lemma {:induction false} ProductAdds(x: nat, y: nat, z: nat)
    ensures Product(x, y + z) == Product(x, y) + Product(x, z)
  {
    if z > 0 {
      ProductAdds(x, y, z - 1);
    }
  }

  /** Every member calls from its own entry on. */
  lemma {:induction false} EnteredInClosedForm(members: nat, period: nat, seconds: nat)
    requires members > 0 ==> Product(period, members - 1) + 1 <= seconds
    ensures EnteredOver(members, period, seconds) + Product(period, Triangle(members)) + members
         == Product(seconds, members)
  {
    if members == 0 {
      NoMembersOver(period, seconds);
    } else {
      assert members > 1 ==> Product(period, members - 2) <= Product(period, members - 1);
      EnteredInClosedForm(members - 1, period, seconds);
      OneMoreMemberOver(members - 1, period, seconds);
      ProductAdds(period, Triangle(members - 1), members - 1);
    }
  }

  /** Whatever the whole periods, the ramps hold what their members call from one second
      after their entry to the end, and the return ramp the others' calls besides. */
  lemma RampTotals(a: Arguments)
    requires Valid(a)
    ensures var n, d := a.users, a.loginPeriod;
            2 * |RowsOf(a, LoginRamp, Product(d, n))| == if d == 0 then 0 else d * n * (n + 1) - 2 * n
    ensures var m, d := |a.pausedOrder|, a.returnPeriod;
            2 * |RowsOf(a, ReturnRamp, Product(d, m + 1))| ==
            if d == 0 then 0 else 2 * (a.users - m) * ((m + 1) * d) + d * (m * (m + 3)) - 2 * m
  {
    LoginTotal(a);
    ReturnTotal(a);
  }

  lemma LoginTotal(a: Arguments)
    requires Valid(a)
    ensures var n, d := a.users, a.loginPeriod;
            2 * |RowsOf(a, LoginRamp, Product(d, n))| == if d == 0 then 0 else d * n * (n + 1) - 2 * n
  {
    var n, d := a.users, a.loginPeriod;
    var t := Product(d, n);
    WindowTotal(a, Window(LoginRamp, n, t));
    RampRequests(a, t);
    if d == 0 {
      ProductIsProduct(0, n);
    } else {
      EnteredInClosedForm(n, d, t);
      LoginSum(n, d, EnteredOver(n, d, t));
    }
  }

  lemma LoginSum(n: nat, d: nat, total: nat)
    requires total + Product(d, Triangle(n)) + n == Product(Product(d, n), n)
    ensures 2 * total == d * n * (n + 1) - 2 * n
  {
    ProductIsProduct(d, n);
    ProductIsProduct(d, Triangle(n));
    ProductIsProduct(d * n, n);
    TriangleInClosedForm(n);
    Doubled(d, Triangle(n), n);
    LoginAlgebra(d, n);
  }

  lemma Doubled(d: int, t: int, n: int)
    requires 2 * t == n * (n - 1)
    ensures 2 * (d * t) == d * (n * (n - 1))
  {
    assert 2 * (d * t) == d * (2 * t);
  }

  lemma LoginAlgebra(d: int, n: int)
    ensures 2 * (d * n * n) - d * (n * (n - 1)) == d * n * (n + 1)
  {
  }

  lemma ReturnAlgebra(d: int, m: int, others: int)
    ensures 2 * (d * (m + 1) * m) - d * (m * (m - 1)) == d * (m * (m + 3))
    ensures others * (d * (m + 1)) == others * ((m + 1) * d)
  {
  }

  lemma ReturnTotal(a: Arguments)
    requires Valid(a)
    ensures var m, d := |a.pausedOrder|, a.returnPeriod;
            2 * |RowsOf(a, ReturnRamp, Product(d, m + 1))| ==
            if d == 0 then 0 else 2 * (a.users - m) * ((m + 1) * d) + d * (m * (m + 3)) - 2 * m
  {
    var m, d := |a.pausedOrder|, a.returnPeriod;
    var t := Product(d, m + 1);
    WindowTotal(a, Window(ReturnRamp, a.users, t));
    RampRequests(a, t);
    if d == 0 {
      ProductIsProduct(0, m + 1);
    } else {
      assert m > 0 ==> Product(d, m - 1) <= Product(d, m);
      EnteredInClosedForm(m, d, t);
      ReturnSum(m, d, a.users - m, EnteredOver(m, d, t));
    }
  }

  lemma ReturnSum(m: nat, d: nat, others: nat, total: nat)
    requires total + Product(d, Triangle(m)) + m == Product(Product(d, m + 1), m)
    ensures 2 * (Product(others, Product(d, m + 1)) + total)
         == 2 * others * ((m + 1) * d) + d * (m * (m + 3)) - 2 * m
  {
    ProductIsProduct(d, m + 1);
    ProductIsProduct(d, Triangle(m));
    ProductIsProduct(d * (m + 1), m);
    ProductIsProduct(others, d * (m + 1));
    TriangleInClosedForm(m);
    Doubled(d, Triangle(m), m);
    ReturnAlgebra(d, m, others);
    assert 2 * others * ((m + 1) * d) == 2 * (others * ((m + 1) * d));
  }

  /** And the other windows hold their rate in every second. */
  lemma SteadyTotals(a: Arguments, phase: Phase, seconds: nat)
    requires Valid(a) && phase != LoginRamp && phase != ReturnRamp
    ensures |RowsOf(a, phase, seconds)|
         == (if phase == Pause50 then a.users - |a.pausedOrder| else a.users) * seconds
  {
    WindowTotal(a, Window(phase, a.users, seconds));
    SteadyRequests(a, seconds);
    ProductIsProduct(a.users, seconds);
    ProductIsProduct(a.users - |a.pausedOrder|, seconds);
  }
}
