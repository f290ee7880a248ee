/** What the desk promises over whole runs of calls, from an empty desk. */
module DeskRuns {
  import opened Wrappers
  import opened Datachanges
  import opened SubscriptionIndex
  import opened DeliveryDesk

  function Run(calls: seq<Call>): Desk {
    if calls == [] then NEW_DESK else Apply(Run(calls[..|calls| - 1]), calls[|calls| - 1])
  }

  /* ---------------- the announced set ---------------- */

  function LastAnnounced(desk: Desk): set<string> {
    if desk.broadcasts == [] then {} else desk.broadcasts[|desk.broadcasts| - 1]
  }

  lemma {:induction false} SubsStayPopulated(calls: seq<Call>)
    ensures Populated(Run(calls).subs)
  {
    if calls != [] {
      var front, call := calls[..|calls| - 1], calls[|calls| - 1];
      SubsStayPopulated(front);
      match call
      case Record(page, tables) => AddedAllPopulated(Run(front).subs, page, tables);
      case Exchange(_, _, deposits) => DepositsKeepTheRest(Run(front), deposits);
      case Deposits(deposits) => DepositsKeepTheRest(Run(front), deposits);
      case _ =>
    }
  }

  lemma {:induction false} AddedAllPopulated(subs: Subs, page: string, tables: seq<string>)
    requires Populated(subs)
    ensures Populated(AddedAll(subs, page, tables))
  {
    if tables != [] {
      AddedAllPopulated(subs, page, tables[..|tables| - 1]);
    }
  }

  lemma {:induction false} DepositsKeepTheRest(desk: Desk, deposits: seq<Deposit>)
    ensures DepositedAll(desk, deposits) == desk.(dbevents := DepositedAll(desk, deposits).dbevents)
  {
    if deposits != [] {
      DepositsKeepTheRest(desk, deposits[..|deposits| - 1]);
    }
  }

  lemma CallKeepsAnnounced(desk: Desk, call: Call)
    requires LastAnnounced(desk) == desk.subs.Keys
    ensures var after := Apply(desk, call);
            && LastAnnounced(after) == after.subs.Keys
            && |after.broadcasts| == |desk.broadcasts| + if after.subs.Keys == desk.subs.Keys then 0 else 1
  {
    if call.Exchange? || call.Deposits? {
      DepositsKeepTheRest(desk, call.deposits);
    }
  }

  lemma {:induction false} KeysAreAnnounced(calls: seq<Call>)
    ensures LastAnnounced(Run(calls)) == Run(calls).subs.Keys
  {
    if calls != [] {
      KeysAreAnnounced(calls[..|calls| - 1]);
      CallKeepsAnnounced(Run(calls[..|calls| - 1]), calls[|calls| - 1]);
    }
  }

  /** The tables somebody subscribes. */
  function Subscribed(subs: Subs): set<string> {
    set t | t in subs && subs[t] != {}
  }

  /** After every call the set last announced is the set of tables with a subscriber,
      and the call announced once if it moved that set, and not at all otherwise. */
  lemma AnnouncedSetIsTheSubscribedSet(calls: seq<Call>, call: Call)
    ensures var before, after := Run(calls), Run(calls + [call]);
            && LastAnnounced(after) == Subscribed(after.subs)
            && |after.broadcasts| == |before.broadcasts| +
                 if Subscribed(after.subs) == Subscribed(before.subs) then 0 else 1
  {
    assert (calls + [call])[..|calls|] == calls;
    KeysAreAnnounced(calls);
    CallKeepsAnnounced(Run(calls), call);
    SubsStayPopulated(calls);
    SubsStayPopulated(calls + [call]);
    assert Subscribed(Run(calls).subs) == Run(calls).subs.Keys;
    assert Subscribed(Run(calls + [call]).subs) == Run(calls + [call]).subs.Keys;
  }

  /* ---------------- exactly once ---------------- */

  predicate Wants(desk: Desk, page: string, table: string) {
    page in PagesFor(desk.subs, table)
  }

  /** The deposits among these that the page subscribes, in order. */
  function Wanted(desk: Desk, page: string, deposits: seq<Deposit>): seq<Deposit> {
    if deposits == [] then []
    else
      var last := deposits[|deposits| - 1];
      Wanted(desk, page, deposits[..|deposits| - 1]) + if Wants(desk, page, last.table) then [last] else []
  }

  /** Everything the page's exchanges returned to it since it was last dropped. */
  function Returned(calls: seq<Call>, page: string): seq<Deposit> {
    if calls == [] then []
    else
      var front, call := calls[..|calls| - 1], calls[|calls| - 1];
      if call.DropPage? && call.page == page then []
      else if call.Exchange? && call.page == page then
        Returned(front, page) + CollectedBy(DepositedAll(Run(front), call.deposits), page, call.user).dbevents
      else Returned(front, page)
  }

  /** What a call files for a page: its deposits on the tables the page subscribes. */
  function FiledBy(desk: Desk, call: Call, page: string): seq<Deposit> {
    if call.Exchange? || call.Deposits? then Wanted(desk, page, call.deposits) else []
  }

  /** Every deposit filed, by whoever, while the page subscribed its table, since the
      page was last dropped. */
  function FiledFor(calls: seq<Call>, page: string): seq<Deposit> {
    if calls == [] then []
    else
      var front, call := calls[..|calls| - 1], calls[|calls| - 1];
      if call.DropPage? && call.page == page then []
      else FiledFor(front, page) + FiledBy(Run(front), call, page)
  }

  lemma {:induction false} DepositsReachTheirPages(desk: Desk, deposits: seq<Deposit>, page: string)
    ensures Waiting(DepositedAll(desk, deposits).dbevents, page)
         == Waiting(desk.dbevents, page) + Wanted(desk, page, deposits)
  {
    if deposits != [] {
      DepositsReachTheirPages(desk, deposits[..|deposits| - 1], page);
      DepositsKeepTheRest(desk, deposits[..|deposits| - 1]);
    }
  }

  /** What one call does to the events that wait for a page. */
  lemma CallOnEvents(desk: Desk, call: Call, page: string)
    ensures Waiting(Apply(desk, call).dbevents, page) ==
            if (call.DropPage? || call.Exchange?) && call.page == page then []
            else Waiting(desk.dbevents, page) + FiledBy(desk, call, page)
    ensures call.Exchange? && call.page == page ==>
              CollectedBy(DepositedAll(desk, call.deposits), page, call.user).dbevents
              == Waiting(desk.dbevents, page) + FiledBy(desk, call, page)
  {
    if call.Exchange? || call.Deposits? {
      DepositsReachTheirPages(desk, call.deposits, page);
    }
  }

  lemma InParts(returned: seq<Deposit>, waiting: seq<Deposit>, filed: seq<Deposit>)
    ensures returned + (waiting + filed) == (returned + waiting) + filed
    ensures returned + (waiting + filed) + [] == (returned + waiting) + filed
  {
  }

  /** Over every run, what a page was given and what still waits for it are, in order,
      exactly the deposits filed while it subscribed: none twice, none lost. */
  lemma {:induction false} ExactlyOnce(calls: seq<Call>, page: string)
    ensures Returned(calls, page) + Waiting(Run(calls).dbevents, page) == FiledFor(calls, page)
  {
    if calls != [] {
      var front, call := calls[..|calls| - 1], calls[|calls| - 1];
      ExactlyOnce(front, page);
      CallOnEvents(Run(front), call, page);
      InParts(Returned(front, page), Waiting(Run(front).dbevents, page), FiledBy(Run(front), call, page));
    }
  }

  /** The exchanging page gets its own deposits in the same answer, behind whatever
      was waiting, and nothing is left waiting for it. */
  lemma OwnDepositsComeBack(calls: seq<Call>, page: string, user: string, deposits: seq<Deposit>)
    ensures var desk := Run(calls);
            && CollectedBy(DepositedAll(desk, deposits), page, user).dbevents
               == Waiting(desk.dbevents, page) + Wanted(desk, page, deposits)
            && Waiting(Apply(desk, Exchange(page, user, deposits)).dbevents, page) == []
  {
    DepositsReachTheirPages(Run(calls), deposits, page);
  }

  predicate Subscribes(call: Call, page: string) {
    match call
    case Subscribe(p, _, on) => p == page && on
    case Record(p, tables) => p == page && tables != []
    case _ => false
  }

  lemma {:induction false} AddedAllForAnother(subs: Subs, p: string, tables: seq<string>, page: string, table: string)
    requires p != page || tables == []
    ensures page in PagesFor(AddedAll(subs, p, tables), table) <==> page in PagesFor(subs, table)
  {
    if tables != [] {
      AddedAllForAnother(subs, p, tables[..|tables| - 1], page, table);
    }
  }

  /** A page that was dropped and has not subscribed since. */
  predicate Gone(calls: seq<Call>, page: string) {
    calls != [] &&
    var front, call := calls[..|calls| - 1], calls[|calls| - 1];
    call == DropPage(page) || (!Subscribes(call, page) && Gone(front, page))
  }

  lemma {:induction false} GoneWantsNothing(calls: seq<Call>, page: string, table: string)
    requires Gone(calls, page)
    ensures !Wants(Run(calls), page, table)
  {
    var front, call := calls[..|calls| - 1], calls[|calls| - 1];
    if call != DropPage(page) {
      GoneWantsNothing(front, page, table);
      match call
      case Record(p, tables) => AddedAllForAnother(Run(front).subs, p, tables, page, table);
      case Exchange(_, _, deposits) => DepositsKeepTheRest(Run(front), deposits);
      case Deposits(deposits) => DepositsKeepTheRest(Run(front), deposits);
      case _ =>
    }
  }

  lemma {:induction false} NothingWanted(desk: Desk, page: string, deposits: seq<Deposit>)
    requires forall table :: !Wants(desk, page, table)
    ensures Wanted(desk, page, deposits) == []
  {
    if deposits != [] {
      NothingWanted(desk, page, deposits[..|deposits| - 1]);
    }
  }

  /** After a drop nothing is kept for the page and nothing returns to it, however
      many exchanges it asks for, until it subscribes again. */
  lemma {:induction false} NothingAfterADrop(calls: seq<Call>, page: string)
    requires Gone(calls, page)
    ensures Returned(calls, page) == [] && Waiting(Run(calls).dbevents, page) == []
    ensures FiledFor(calls, page) == []
  {
    var front, call := calls[..|calls| - 1], calls[|calls| - 1];
    if call != DropPage(page) {
      NothingAfterADrop(front, page);
      if call.Exchange? || call.Deposits? {
        forall table ensures !Wants(Run(front), page, table) {
          GoneWantsNothing(front, page, table);
        }
        NothingWanted(Run(front), page, call.deposits);
      }
    }
    ExactlyOnce(calls, page);
  }

  /* ---------------- the desk's change queues ---------------- */

  /** What a call does to the queue of changes of one page. */
  function PageEvent(call: Call, page: string): Option<Event> {
    match call
    case Address(m, held) =>
      if held && !m.filtered && m.kind !in STATE_KINDS && m.target == page then Some(File(m.op)) else None
    case Exchange(p, _, _) => if p == page then Some(Drain) else None
    case DropPage(p) => if p == page then Some(Lose) else None
    case _ => None
  }

  /** What a call does to the queue of store changes of one user. */
  function UserEvent(call: Call, user: string): Option<Event> {
    match call
    case Address(m, held) =>
      if held && !m.filtered && m.kind in STATE_KINDS && m.target == user then Some(File(m.op)) else None
    case Exchange(_, u, _) => if u == user then Some(Drain) else None
    case DropUser(u) => if u == user then Some(Lose) else None
    case _ => None
  }

  function Events(calls: seq<Call>, event: Call -> Option<Event>): seq<Event> {
    if calls == [] then []
    else
      var e := event(calls[|calls| - 1]);
      Events(calls[..|calls| - 1], event) + if e.Some? then [e.value] else []
  }

  function Maybe(line: Line, e: Option<Event>): Line {
    if e.Some? then Happen(line, e.value) else line
  }

  lemma LineGrows(line: Line, calls: seq<Call>, event: Call -> Option<Event>)
    requires calls != []
    ensures AllHappen(line, Events(calls, event))
         == Maybe(AllHappen(line, Events(calls[..|calls| - 1], event)), event(calls[|calls| - 1]))
  {
    var es, e := Events(calls[..|calls| - 1], event), event(calls[|calls| - 1]);
    if e.Some? {
      assert (es + [e.value])[..|es|] == es;
    } else {
      assert es + [] == es;
    }
  }

  /** The client of a page applies what every exchange of the page hands it. */
  function PageClient(calls: seq<Call>, page: string, client: Client): Client {
    if calls == [] then client
    else
      var front, call := calls[..|calls| - 1], calls[|calls| - 1];
      var before := PageClient(front, page, client);
      if call.Exchange? && call.page == page then
        Collect(before, CollectedBy(DepositedAll(Run(front), call.deposits), page, call.user).datachanges)
      else before
  }

  lemma CallOnUserQueue(desk: Desk, call: Call, user: string)
    ensures Waiting(Apply(desk, call).storeChanges, user)
         == Maybe(Line(Waiting(desk.storeChanges, user), map[]), UserEvent(call, user)).queue
  {
    if call.Exchange? || call.Deposits? {
      DepositsKeepTheRest(desk, call.deposits);
    }
  }

  /** What one call hands the page's client, and what it leaves the page. */
  lemma CallOnPageLine(desk: Desk, call: Call, page: string, client: Client)
    ensures Maybe(Line(Waiting(desk.datachanges, page), client), PageEvent(call, page))
         == Line(Waiting(Apply(desk, call).datachanges, page),
                 if call.Exchange? && call.page == page
                 then Collect(client, CollectedBy(DepositedAll(desk, call.deposits), page, call.user).datachanges)
                 else client)
  {
    if call.Exchange? || call.Deposits? {
      DepositsKeepTheRest(desk, call.deposits);
    }
  }

  /** The desk's queue for a page, over any run of calls, is the queue of that page's
      own messages, and its client has what that queue handed it. */
  lemma {:induction false} PageQueueIsItsLine(calls: seq<Call>, page: string, client: Client)
    ensures AllHappen(Line([], client), Events(calls, call => PageEvent(call, page)))
         == Line(Waiting(Run(calls).datachanges, page), PageClient(calls, page, client))
  {
    if calls != [] {
      var front, call := calls[..|calls| - 1], calls[|calls| - 1];
      PageQueueIsItsLine(front, page, client);
      LineGrows(Line([], client), calls, call => PageEvent(call, page));
      CallOnPageLine(Run(front), call, page, PageClient(front, page, client));
    }
  }

  lemma {:induction false} UserQueueIsItsLine(calls: seq<Call>, user: string)
    ensures AllHappen(Line([], map[]), Events(calls, call => UserEvent(call, user))).queue
         == Waiting(Run(calls).storeChanges, user)
  {
    if calls != [] {
      var front, call := calls[..|calls| - 1], calls[|calls| - 1];
      UserQueueIsItsLine(front, user);
      LineGrows(Line([], map[]), calls, call => UserEvent(call, user));
      CallOnUserQueue(Run(front), call, user);
    }
  }

  /** Over every run of calls at the desk, a page's client holds after each exchange,
      and would hold if it exchanged now, what an uncoalescing desk would have left it. */
  lemma DeskCoalescingPreservesMeaning(calls: seq<Call>, page: string, client: Client)
    ensures var plain := AllHappenPlainly(Line([], client), Events(calls, call => PageEvent(call, page)));
            && PageClient(calls, page, client) == plain.client
            && Collect(PageClient(calls, page, client), Waiting(Run(calls).datachanges, page))
               == Collect(plain.client, plain.queue)
  {
    PageQueueIsItsLine(calls, page, client);
    CoalescingPreservesMeaning(client, Events(calls, call => PageEvent(call, page)));
  }
}
