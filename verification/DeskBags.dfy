/** What the desk's clients end up with: a page's own Bag, and the Bag of a user's store,
    to which whichever of his pages collects his store changes applies them. */
module DeskBags {
  import opened Wrappers
  import opened LegacyBag
  import opened Datachanges
  import opened DeliveryDesk
  import opened DeskRuns
  import opened Trees
  import opened TreeClients
  import opened BagClients

  /** The page applies what every exchange of the page hands it. */
  function PageBag(calls: seq<Call>, page: string, s: Receiver, nodes: seq<Node>): seq<Node> {
    if calls == [] then nodes
    else
      var front, call := calls[..|calls| - 1], calls[|calls| - 1];
      var before := PageBag(front, page, s, nodes);
      if call.Exchange? && call.page == page then
        BagTaken(s, before, CollectedBy(DepositedAll(Run(front), call.deposits), page, call.user).datachanges)
      else before
  }

  function UserBag(calls: seq<Call>, user: string, s: Receiver, nodes: seq<Node>): seq<Node> {
    if calls == [] then nodes
    else
      var front, call := calls[..|calls| - 1], calls[|calls| - 1];
      var before := UserBag(front, user, s, nodes);
      if call.Exchange? && call.user == user then
        BagTaken(s, before, CollectedBy(DepositedAll(Run(front), call.deposits), call.page, user).storeChanges)
      else before
  }

  function MaybeBag(s: Receiver, line: BagLine, e: Option<Event>): BagLine {
    if e.Some? then BagHappens(s, line, e.value) else line
  }

  lemma BagRunGrows(s: Receiver, nodes: seq<Node>, calls: seq<Call>, event: Call -> Option<Event>)
    requires calls != []
    ensures BagRun(s, nodes, Events(calls, event))
         == MaybeBag(s, BagRun(s, nodes, Events(calls[..|calls| - 1], event)), event(calls[|calls| - 1]))
  {
    var es, e := Events(calls[..|calls| - 1], event), event(calls[|calls| - 1]);
    if e.Some? {
      assert (es + [e.value])[..|es|] == es;
    } else {
      assert es + [] == es;
    }
  }

  lemma CallOnPageBag(desk: Desk, call: Call, page: string, s: Receiver, nodes: seq<Node>)
    ensures MaybeBag(s, BagLine(Waiting(desk.datachanges, page), nodes), PageEvent(call, page))
         == BagLine(Waiting(Apply(desk, call).datachanges, page),
                    if call.Exchange? && call.page == page
                    then BagTaken(s, nodes, CollectedBy(DepositedAll(desk, call.deposits), page, call.user).datachanges)
                    else nodes)
  {
    if call.Exchange? || call.Deposits? {
      DepositsKeepTheRest(desk, call.deposits);
    }
  }

  lemma CallOnUserBag(desk: Desk, call: Call, user: string, s: Receiver, nodes: seq<Node>)
    ensures MaybeBag(s, BagLine(Waiting(desk.storeChanges, user), nodes), UserEvent(call, user))
         == BagLine(Waiting(Apply(desk, call).storeChanges, user),
                    if call.Exchange? && call.user == user
                    then BagTaken(s, nodes, CollectedBy(DepositedAll(desk, call.deposits), call.page, user).storeChanges)
                    else nodes)
  {
    if call.Exchange? || call.Deposits? {
      DepositsKeepTheRest(desk, call.deposits);
    }
  }

  lemma {:induction false} PageBagIsItsLine(calls: seq<Call>, page: string, s: Receiver, nodes: seq<Node>)
    ensures BagRun(s, nodes, Events(calls, call => PageEvent(call, page)))
         == BagLine(Waiting(Run(calls).datachanges, page), PageBag(calls, page, s, nodes))
  {
    if calls != [] {
      var front, call := calls[..|calls| - 1], calls[|calls| - 1];
      PageBagIsItsLine(front, page, s, nodes);
      BagRunGrows(s, nodes, calls, call => PageEvent(call, page));
      CallOnPageBag(Run(front), call, page, s, PageBag(front, page, s, nodes));
    }
  }

  lemma {:induction false} UserBagIsItsLine(calls: seq<Call>, user: string, s: Receiver, nodes: seq<Node>)
    ensures BagRun(s, nodes, Events(calls, call => UserEvent(call, user)))
         == BagLine(Waiting(Run(calls).storeChanges, user), UserBag(calls, user, s, nodes))
  {
    if calls != [] {
      var front, call := calls[..|calls| - 1], calls[|calls| - 1];
      UserBagIsItsLine(front, user, s, nodes);
      BagRunGrows(s, nodes, calls, call => UserEvent(call, user));
      CallOnUserBag(Run(front), call, user, s, UserBag(front, user, s, nodes));
    }
  }

  /** Over every run of calls at the desk in which no replacing delete finds a set of its
      own key waiting for the page, the page's Bag is, up to the order of nodes, the one
      an uncoalescing desk would have left it, and is read alike throughout. */
  lemma PagesKeepTheirBags(calls: seq<Call>, page: string, s: Receiver, nodes: seq<Node>)
    requires Tidy(s) && Neat(Bag(nodes))
    requires NoDeleteReplacesASet(ReaderOf(s), TreeOf(Bag(nodes)), Events(calls, call => PageEvent(call, page)))
    ensures var plain := PlainBagRun(s, nodes, Events(calls, call => PageEvent(call, page))).nodes;
            && TreeOf(Bag(PageBag(calls, page, s, nodes))) == TreeOf(Bag(plain))
            && ReadAlikeThroughout(PageBag(calls, page, s, nodes), plain)
  {
    PageBagIsItsLine(calls, page, s, nodes);
    CoalescingPreservesBags(s, nodes, Events(calls, call => PageEvent(call, page)));
  }

  /** And so is the Bag of a user's store. */
  lemma UsersKeepTheirBags(calls: seq<Call>, user: string, s: Receiver, nodes: seq<Node>)
    requires Tidy(s) && Neat(Bag(nodes))
    requires NoDeleteReplacesASet(ReaderOf(s), TreeOf(Bag(nodes)), Events(calls, call => UserEvent(call, user)))
    ensures var plain := PlainBagRun(s, nodes, Events(calls, call => UserEvent(call, user))).nodes;
            && TreeOf(Bag(UserBag(calls, user, s, nodes))) == TreeOf(Bag(plain))
            && ReadAlikeThroughout(UserBag(calls, user, s, nodes), plain)
  {
    UserBagIsItsLine(calls, user, s, nodes);
    CoalescingPreservesBags(s, nodes, Events(calls, call => UserEvent(call, user)));
  }
}
