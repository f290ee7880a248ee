/** What waits at the desk, said of the calls alone: who put it there, and that nobody took
    it away since. */
module DeskQueues {
  import opened Wrappers
  import opened Counting
  import opened GlobalPaths
  import opened Datachanges
  import opened SubscriptionIndex
  import opened DeliveryDesk
  import opened DeskRuns

  /* ---------------- what lies under a prefix ---------------- */

  lemma BelowHasItsSegments(path: string, prefix: string)
    requires prefix + "." <= path
    ensures Segments(prefix) <= Segments(path)
  {
    var rest := path[|prefix| + 1..];
    assert path == prefix + "." + rest;
    SegmentsBehind(prefix, rest);
  }

  lemma JoinedBelow(above: seq<string>, labels: seq<string>)
    requires above != [] && above <= labels
    ensures Under(Join(labels), Join(above))
  {
    var below := labels[|above|..];
    assert labels == above + below;
    if below == [] {
      assert labels == above;
    } else {
      JoinBehind(above, below);
    }
  }

  lemma SegmentsAreBelow(path: string, prefix: string, above: seq<string>, labels: seq<string>)
    requires above == Segments(prefix) && labels == Segments(path) && above <= labels
    ensures Under(path, prefix)
  {
    SegmentsRoundTrip(path);
    SegmentsRoundTrip(prefix);
    JoinedBelow(above, labels);
  }

  /** A path lies under a prefix exactly if its segments begin with the prefix's. */
  lemma UnderIsBelow(path: string, prefix: string)
    ensures Under(path, prefix) <==> Segments(prefix) <= Segments(path)
  {
    if prefix + "." <= path {
      BelowHasItsSegments(path, prefix);
    }
    if Segments(prefix) <= Segments(path) {
      SegmentsAreBelow(path, prefix, Segments(prefix), Segments(path));
    }
  }

  /* ---------------- the queues of changes ---------------- */

  /** The call is a message that reaches its target: to the page itself, or to the store
      of the user. */
  predicate Reaches(call: Call, state: bool, target: string) {
    && call.Address? && call.held && !call.message.filtered
    && (call.message.kind in STATE_KINDS) == state && call.message.target == target
  }

  function Sent(call: Call, state: bool, target: string): Option<Change> {
    if Reaches(call, state, target) && call.message.op.SetChange? then Some(call.message.op.change) else None
  }

  /** What a message to its queue takes out of it. */
  predicate Withdraws(op: Op, c: Change) {
    match op
    case Reset => true
    case DropPrefix(path) => Segments(path) <= Segments(c.key.path)
    case SetChange(d, replace) => replace && d.key == c.key
  }

  predicate TakenFromPage(call: Call, page: string, c: Change) {
    match call
    case Exchange(p, _, _) => p == page
    case DropPage(p) => p == page
    case _ => Reaches(call, false, page) && Withdraws(call.message.op, c)
  }

  predicate TakenFromUser(call: Call, user: string, c: Change) {
    match call
    case Exchange(_, u, _) => u == user
    case DropUser(u) => u == user
    case _ => Reaches(call, true, user) && Withdraws(call.message.op, c)
  }

  function WaitingForPage(calls: seq<Call>, page: string): seq<Change> {
    Lasting(calls, call => Sent(call, false, page), (call, c) => TakenFromPage(call, page, c))
  }

  function WaitingForUser(calls: seq<Call>, user: string): seq<Change> {
    Lasting(calls, call => Sent(call, true, user), (call, c) => TakenFromUser(call, user, c))
  }

  lemma FilingTakesAndPuts(queue: seq<Change>, op: Op, keep: Change -> bool)
    requires forall c :: keep(c) == !Withdraws(op, c)
    ensures FileChange(queue, op)
         == Filter(queue, keep) + if op.SetChange? then [op.change] else []
  {
    match op
    case Reset => FilterNone(queue, keep);
    case DropPrefix(path) =>
      forall c: Change ensures keep(c) == !Under(c.key.path, path) { UnderIsBelow(c.key.path, path); }
      WithoutPrefixPicks(queue, path);
      FilterAgree(queue, OffPrefix(path), keep);
    case SetChange(change, replace) =>
      if replace {
        WithoutKeyPicks(queue, change.key);
        FilterAgree(queue, OffKey(change.key), keep);
      } else {
        FilterEvery(queue, keep);
      }
  }

  lemma CallOnPageQueue(desk: Desk, call: Call, page: string, keep: Change -> bool)
    requires forall c :: keep(c) == !TakenFromPage(call, page, c)
    ensures Waiting(Apply(desk, call).datachanges, page)
         == Filter(Waiting(desk.datachanges, page), keep) + OrNothing(Sent(call, false, page))
  {
    var queue := Waiting(desk.datachanges, page);
    if Reaches(call, false, page) {
      FilingTakesAndPuts(queue, call.message.op, keep);
    } else if (call.Exchange? || call.DropPage?) && call.page == page {
      FilterNone(queue, keep);
    } else {
      FilterEvery(queue, keep);
      if call.Exchange? || call.Deposits? {
        DepositsKeepTheRest(desk, call.deposits);
      }
    }
  }

  lemma CallOnStoreQueue(desk: Desk, call: Call, user: string, keep: Change -> bool)
    requires forall c :: keep(c) == !TakenFromUser(call, user, c)
    ensures Waiting(Apply(desk, call).storeChanges, user)
         == Filter(Waiting(desk.storeChanges, user), keep) + OrNothing(Sent(call, true, user))
  {
    var queue := Waiting(desk.storeChanges, user);
    if Reaches(call, true, user) {
      FilingTakesAndPuts(queue, call.message.op, keep);
    } else if (call.Exchange? || call.DropUser?) && call.user == user {
      FilterNone(queue, keep);
    } else {
      FilterEvery(queue, keep);
      if call.Exchange? || call.Deposits? {
        DepositsKeepTheRest(desk, call.deposits);
      }
    }
  }

  /** Over every run of calls, what waits for a page are, in order, the changes sent to it
      that nothing took since: no exchange or loss of the page, no reset, no drop of a
      prefix above the path, and no replacing write of the same key. */
  lemma {:induction false} WhatWaitsForAPage(calls: seq<Call>, page: string)
    ensures Waiting(Run(calls).datachanges, page) == WaitingForPage(calls, page)
  {
    if calls != [] {
      var front, last := calls[..|calls| - 1], calls[|calls| - 1];
      var keep := (c: Change) => !TakenFromPage(last, page, c);
      WhatWaitsForAPage(front, page);
      CallOnPageQueue(Run(front), last, page, keep);
      LastingStep(calls, call => Sent(call, false, page), (call, c) => TakenFromPage(call, page, c), keep);
    }
  }

  /** And so for the store changes that wait for a user. */
  lemma {:induction false} WhatWaitsForAUser(calls: seq<Call>, user: string)
    ensures Waiting(Run(calls).storeChanges, user) == WaitingForUser(calls, user)
  {
    if calls != [] {
      var front, last := calls[..|calls| - 1], calls[|calls| - 1];
      var keep := (c: Change) => !TakenFromUser(last, user, c);
      WhatWaitsForAUser(front, user);
      CallOnStoreQueue(Run(front), last, user, keep);
      LastingStep(calls, call => Sent(call, true, user), (call, c) => TakenFromUser(call, user, c), keep);
    }
  }

  /** An exchange hands over exactly that, whatever deposits it brings. */
  lemma WhatAnExchangeReturns(calls: seq<Call>, page: string, user: string, deposits: seq<Deposit>)
    ensures var answer := CollectedBy(DepositedAll(Run(calls), deposits), page, user);
            && answer.datachanges == WaitingForPage(calls, page)
            && answer.storeChanges == WaitingForUser(calls, user)
            && answer.dbevents == Waiting(Run(calls).dbevents, page) + Wanted(Run(calls), page, deposits)
  {
    WhatWaitsForAPage(calls, page);
    WhatWaitsForAUser(calls, user);
    DepositsKeepTheRest(Run(calls), deposits);
    DepositsReachTheirPages(Run(calls), deposits, page);
  }

  /** A reset that reaches its target leaves nothing waiting there. */
  lemma AResetEmptiesTheQueue(calls: seq<Call>, m: Message)
    requires !m.filtered && m.op.Reset?
    ensures var after := Run(calls + [Address(m, true)]);
            Waiting(if m.kind in STATE_KINDS then after.storeChanges else after.datachanges, m.target) == []
  {
    assert (calls + [Address(m, true)])[..|calls|] == calls;
    if m.kind in STATE_KINDS {
      CallOnStoreQueue(Run(calls), Address(m, true), m.target, (c: Change) => false);
      FilterNone(Waiting(Run(calls).storeChanges, m.target), (c: Change) => false);
    } else {
      CallOnPageQueue(Run(calls), Address(m, true), m.target, (c: Change) => false);
      FilterNone(Waiting(Run(calls).datachanges, m.target), (c: Change) => false);
    }
  }

  /* ---------------- who subscribes what ---------------- */

  predicate Opens(call: Call, page: string, table: string) {
    match call
    case Subscribe(p, t, on) => p == page && t == table && on
    case Record(p, tables) => p == page && table in tables
    case _ => false
  }

  predicate Ends(call: Call, page: string, table: string) {
    match call
    case Subscribe(p, t, on) => p == page && t == table && !on
    case DropPage(p) => p == page
    case _ => false
  }

  /** The page opened the subscription with this call and nothing ended it since. */
  predicate OpenSince(calls: seq<Call>, i: int, page: string, table: string) {
    0 <= i < |calls| && Opens(calls[i], page, table) && forall j :: i < j < |calls| ==> !Ends(calls[j], page, table)
  }

  lemma {:induction false} AddedAllHas(subs: Subs, p: string, tables: seq<string>, page: string, table: string)
    ensures page in PagesFor(AddedAll(subs, p, tables), table)
       <==> page in PagesFor(subs, table) || (p == page && table in tables)
  {
    if tables != [] {
      var front, last := tables[..|tables| - 1], tables[|tables| - 1];
      AddedAllHas(subs, p, front, page, table);
      assert tables == front + [last];
    }
  }

  lemma CallOnSubscription(desk: Desk, call: Call, page: string, table: string)
    ensures page in PagesFor(Apply(desk, call).subs, table)
       <==> Opens(call, page, table) || (page in PagesFor(desk.subs, table) && !Ends(call, page, table))
  {
    match call
    case Record(p, tables) => AddedAllHas(desk.subs, p, tables, page, table);
    case Exchange(_, _, deposits) => DepositsKeepTheRest(desk, deposits);
    case Deposits(deposits) => DepositsKeepTheRest(desk, deposits);
    case _ =>
  }

  /** After every run of calls a page subscribes a table exactly if it opened the
      subscription, or its record named the table, and neither closed it nor was dropped
      since. */
  lemma {:induction false} WhoSubscribes(calls: seq<Call>, page: string, table: string)
    ensures page in PagesFor(Run(calls).subs, table) <==> exists i :: OpenSince(calls, i, page, table)
  {
    if calls != [] {
      var front, last := calls[..|calls| - 1], calls[|calls| - 1];
      WhoSubscribes(front, page, table);
      CallOnSubscription(Run(front), last, page, table);
      if Opens(last, page, table) {
        assert OpenSince(calls, |calls| - 1, page, table);
      } else {
        if i :| OpenSince(front, i, page, table) && !Ends(last, page, table) {
          assert OpenSince(calls, i, page, table);
        }
        if i :| OpenSince(calls, i, page, table) {
          assert OpenSince(front, i, page, table);
        }
      }
    }
  }
}
