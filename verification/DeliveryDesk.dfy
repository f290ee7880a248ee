/** The vertex's desk: who subscribes what, and what waits for whom. */
module DeliveryDesk {
  import opened Datachanges
  import opened SubscriptionIndex

  const STATE_KINDS: set<string> := {"page_store", "user_store", "connection_store"}

  /** `arrival` is the clock reading at which the desk files the deposit. */
  datatype Deposit = Deposit(table: string, batch: int, arrival: int)

  datatype Message = Message(kind: string, target: string, filtered: bool, op: Op)

  datatype Collected = Collected(datachanges: seq<Change>, dbevents: seq<Deposit>, storeChanges: seq<Change>)

  datatype Filing = NotHeld | Filed | NotImplemented

  function Waiting<T>(queues: map<string, seq<T>>, key: string): seq<T> {
    if key in queues then queues[key] else []
  }

  /* ---------------- the desk as a value ---------------- */

  datatype Desk = Desk(subs: Subs,
                       datachanges: map<string, seq<Change>>,
                       dbevents: map<string, seq<Deposit>>,
                       storeChanges: map<string, seq<Change>>,
                       broadcasts: seq<set<string>>)

  const NEW_DESK := Desk(map[], map[], map[], map[], [])

  function AddedAll(subs: Subs, page: string, tables: seq<string>): Subs {
    if tables == [] then subs
    else Added(AddedAll(subs, page, tables[..|tables| - 1]), page, tables[|tables| - 1])
  }

  /** The subscriptions replaced, and announced when the set of tables moved. */
  function Resubscribed(desk: Desk, subs: Subs): Desk {
    desk.(subs := subs,
          broadcasts := if subs.Keys == desk.subs.Keys then desk.broadcasts else desk.broadcasts + [subs.Keys])
  }

  /** A deposit at the end of the queue of every page that subscribes its table. */
  function Deposited(desk: Desk, deposit: Deposit): Desk {
    var pages := PagesFor(desk.subs, deposit.table);
    desk.(dbevents := map p | p in desk.dbevents.Keys + pages ::
                        Waiting(desk.dbevents, p) + if p in pages then [deposit] else [])
  }

  function DepositedAll(desk: Desk, deposits: seq<Deposit>): Desk {
    if deposits == [] then desk
    else Deposited(DepositedAll(desk, deposits[..|deposits| - 1]), deposits[|deposits| - 1])
  }

  function Addressed(desk: Desk, m: Message): Desk {
    if m.filtered then desk
    else if m.kind in STATE_KINDS then
      desk.(storeChanges := desk.storeChanges[m.target := FileChange(Waiting(desk.storeChanges, m.target), m.op)])
    else
      desk.(datachanges := desk.datachanges[m.target := FileChange(Waiting(desk.datachanges, m.target), m.op)])
  }

  function Exchanged(desk: Desk, page: string, user: string): Desk {
    desk.(datachanges := desk.datachanges - {page}, dbevents := desk.dbevents - {page},
          storeChanges := desk.storeChanges - {user})
  }

  function CollectedBy(desk: Desk, page: string, user: string): Collected {
    Collected(Waiting(desk.datachanges, page), Waiting(desk.dbevents, page), Waiting(desk.storeChanges, user))
  }

  /** One call at the desk. `held` says whether the population knows the target. */
  datatype Call =
    | Record(page: string, tables: seq<string>)
    | Subscribe(page: string, table: string, on: bool)
    | Exchange(page: string, user: string, deposits: seq<Deposit>)
    | Deposits(deposits: seq<Deposit>)
    | Address(message: Message, held: bool)
    | DropPage(page: string)
    | DropUser(user: string)

  function Apply(desk: Desk, call: Call): Desk {
    match call
    case Record(page, tables) => Resubscribed(desk, AddedAll(desk.subs, page, tables))
    case Subscribe(page, table, on) =>
      Resubscribed(desk, if on then Added(desk.subs, page, table) else Forgotten(desk.subs, page, table))
    case Exchange(page, user, deposits) => Exchanged(DepositedAll(desk, deposits), page, user)
    case Deposits(deposits) => DepositedAll(desk, deposits)
    case Address(m, held) => if held then Addressed(desk, m) else desk
    case DropPage(page) =>
      Resubscribed(desk, Dropped(desk.subs, page)).(datachanges := desk.datachanges - {page},
                                                    dbevents := desk.dbevents - {page})
    case DropUser(user) => desk.(storeChanges := desk.storeChanges - {user})
  }

  /* ---------------- the desk as the source keeps it ---------------- */

  class DeliveryDesk {
    const index: SubscriptionIndex
    var datachanges: map<string, seq<Change>>
    var dbevents: map<string, seq<Deposit>>
    var storeChanges: map<string, seq<Change>>
    /** What was announced to the vertex, in order. */
    var broadcasts: seq<set<string>>

    ghost predicate Valid()
      reads this, index
    {
      index.Valid()
    }

    ghost function Value(): Desk
      reads this, index
    {
      Desk(index.tablePages, datachanges, dbevents, storeChanges, broadcasts)
    }

    constructor ()
      ensures Valid() && Value() == NEW_DESK && fresh(index)
    {
      index := new SubscriptionIndex();
      datachanges, dbevents, storeChanges, broadcasts := map[], map[], map[], [];
    }

    method Announce()
      modifies this`broadcasts
      ensures Value() == old(Value()).(broadcasts := old(broadcasts) + [index.tablePages.Keys])
    {
      broadcasts := broadcasts + [index.tablePages.Keys];
    }

    method RecordPageTableSubscriptions(page: string, tables: seq<string>)
      requires Valid()
      modifies this`broadcasts, index
      ensures Valid() && Value() == Apply(old(Value()), Record(page, tables))
    {
      var anyCreated := false;
      ghost var subs := index.tablePages;
      for i := 0 to |tables|
        invariant Valid() && broadcasts == old(broadcasts)
        invariant index.tablePages == AddedAll(subs, page, tables[..i])
        invariant subs.Keys <= index.tablePages.Keys
        invariant anyCreated <==> index.tablePages.Keys != subs.Keys
      {
        assert tables[..i + 1][..i] == tables[..i];
        var created := index.Subscribe(page, tables[i]);
        anyCreated := anyCreated || created;
      }
      assert tables[..|tables|] == tables;
      if anyCreated { Announce(); }
    }

    method SubscribeTable(page: string, table: string, on: bool)
      requires Valid()
      modifies this`broadcasts, index
      ensures Valid() && Value() == Apply(old(Value()), Subscribe(page, table, on))
    {
      var moved;
      if on { moved := index.Subscribe(page, table); } else { moved := index.Unsubscribe(page, table); }
      if moved { Announce(); }
    }

    method FileDbevent(deposit: Deposit)
      requires Valid()
      modifies this`dbevents
      ensures Valid() && Value() == Deposited(old(Value()), deposit)
    {
      var pages := PagesFor(index.tablePages, deposit.table);
      ghost var queues := dbevents;
      assert forall p <- queues.Keys :: queues[p] + [] == queues[p];
      var left := pages;
      while left != {}
        invariant left <= pages
        invariant dbevents == map p | p in queues.Keys + (pages - left) ::
                                Waiting(queues, p) + if p in pages - left then [deposit] else []
      {
        var page :| page in left;
        dbevents := dbevents[page := Waiting(dbevents, page) + [deposit]];
        left := left - {page};
      }
    }

    method FileAll(deposits: seq<Deposit>)
      requires Valid()
      modifies this`dbevents
      ensures Valid() && Value() == DepositedAll(old(Value()), deposits)
    {
      for i := 0 to |deposits|
        invariant Value() == DepositedAll(old(Value()), deposits[..i])
      {
        assert deposits[..i + 1][..i] == deposits[..i];
        FileDbevent(deposits[i]);
      }
      assert deposits[..|deposits|] == deposits;
    }

    /** Deposits first, answers after. */
    method Exchange(page: string, user: string, deposits: seq<Deposit>) returns (answer: Collected)
      requires Valid()
      modifies this
      ensures Valid() && Value() == Apply(old(Value()), Call.Exchange(page, user, deposits))
      ensures answer == CollectedBy(DepositedAll(old(Value()), deposits), page, user)
    {
      FileAll(deposits);
      answer := Collected(Waiting(datachanges, page), Waiting(dbevents, page), Waiting(storeChanges, user));
      datachanges := datachanges - {page};
      dbevents := dbevents - {page};
      storeChanges := storeChanges - {user};
    }

    method Deposit(deposits: seq<Deposit>)
      requires Valid()
      modifies this`dbevents
      ensures Valid() && Value() == Apply(old(Value()), Deposits(deposits))
    {
      FileAll(deposits);
    }

    method OnDatachange(m: Message, users: set<string>, pages: set<string>) returns (filing: Filing)
      requires Valid()
      modifies this
      ensures var held := m.target in if m.kind in STATE_KINDS then users else pages;
              && Valid() && Value() == Apply(old(Value()), Address(m, held))
              && filing == if !held then NotHeld else if m.filtered then NotImplemented else Filed
    {
      var known := if m.kind in STATE_KINDS then m.target in users else m.target in pages;
      if !known { return NotHeld; }
      filing := FileDatachange(m);
    }

    method FileDatachange(m: Message) returns (filing: Filing)
      requires Valid()
      modifies this
      ensures Valid() && Value() == Addressed(old(Value()), m)
      ensures filing == if m.filtered then NotImplemented else Filed
    {
      if m.filtered { return NotImplemented; }
      filing := Filed;
      var state := m.kind in STATE_KINDS;
      var queue := if state then Waiting(storeChanges, m.target) else Waiting(datachanges, m.target);
      match m.op {
        case Reset => queue := [];
        case DropPrefix(path) => queue := WithoutPrefix(queue, path);
        case SetChange(change, replace) =>
          if replace { queue := WithoutKey(queue, change.key); }
          queue := queue + [change];
      }
      if state {
        storeChanges := storeChanges[m.target := queue];
      } else {
        datachanges := datachanges[m.target := queue];
      }
    }

    method DropPage(page: string)
      requires Valid()
      modifies this, index
      ensures Valid() && Value() == Apply(old(Value()), Call.DropPage(page))
    {
      datachanges := datachanges - {page};
      dbevents := dbevents - {page};
      var dropped := index.DropPage(page);
      if dropped { Announce(); }
    }

    method DropUser(user: string)
      requires Valid()
      modifies this`storeChanges
      ensures Valid() && Value() == Apply(old(Value()), Call.DropUser(user))
    {
      storeChanges := storeChanges - {user};
    }
  }
}
