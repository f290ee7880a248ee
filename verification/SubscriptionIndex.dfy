/** Which pages want which table, and which tables a page wants: two maps that only
    change together. */
module SubscriptionIndex {

  type Subs = map<string, set<string>>

  function PagesFor(subs: Subs, table: string): set<string> {
    if table in subs then subs[table] else {}
  }

  function Added(subs: Subs, page: string, table: string): Subs {
    subs[table := PagesFor(subs, table) + {page}]
  }

  function Forgotten(subs: Subs, page: string, table: string): Subs {
    if PagesFor(subs, table) <= {page} then subs - {table} else subs[table := subs[table] - {page}]
  }

  /** The subscriptions once a page is gone from every table. */
  function Dropped(subs: Subs, page: string): Subs {
    map t | t in subs && subs[t] != {page} :: subs[t] - {page}
  }

  /** Dropped half way: the tables in `left` are still to be visited. */
  ghost function Dropping(subs: Subs, page: string, left: set<string>): Subs {
    map t | t in subs && (t in left || subs[t] != {page}) :: if t in left then subs[t] else subs[t] - {page}
  }

  lemma DroppingStep(subs: Subs, page: string, left: set<string>, table: string)
    requires table in left && table in subs && page in subs[table]
    ensures Forgotten(Dropping(subs, page, left), page, table) == Dropping(subs, page, left - {table})
  {
    var now, next := Forgotten(Dropping(subs, page, left), page, table), Dropping(subs, page, left - {table});
    assert Dropping(subs, page, left)[table] == subs[table];
    assert subs[table] <= {page} <==> subs[table] == {page};
    assert now.Keys == next.Keys;
  }

  /** No table is kept without a subscriber. */
  ghost predicate Populated(subs: Subs) {
    forall t <- subs.Keys :: subs[t] != {}
  }

  /** The two maps agree about this page and this table. */
  ghost predicate Agree(tablePages: Subs, pageTables: Subs, page: string, table: string) {
    page in PagesFor(tablePages, table) <==> table in PagesFor(pageTables, page)
  }

  class SubscriptionIndex {
    var tablePages: Subs
    var pageTables: Subs

    /** Both maps tell the same pairs, and neither keeps an empty set. */
    ghost predicate Valid()
      reads this
    {
      && Populated(tablePages) && Populated(pageTables)
      && forall page, table :: Agree(tablePages, pageTables, page, table)
    }

    constructor ()
      ensures Valid() && tablePages == map[]
    {
      tablePages, pageTables := map[], map[];
    }

    method Subscribe(page: string, table: string) returns (created: bool)
      requires Valid()
      modifies this
      ensures Valid()
      ensures tablePages == Added(old(tablePages), page, table)
      ensures created <==> tablePages.Keys != old(tablePages.Keys)
    {
      created := table !in tablePages;
      tablePages := tablePages[table := PagesFor(tablePages, table) + {page}];
      pageTables := pageTables[page := PagesFor(pageTables, page) + {table}];
      forall p, t ensures Agree(tablePages, pageTables, p, t) {
        assert Agree(old(tablePages), old(pageTables), p, t);
      }
    }

    method Unsubscribe(page: string, table: string) returns (deleted: bool)
      requires Valid()
      modifies this
      ensures Valid()
      ensures tablePages == Forgotten(old(tablePages), page, table)
      ensures deleted <==> tablePages.Keys != old(tablePages.Keys)
    {
      deleted := Forget(page, table);
    }

    method Forget(page: string, table: string) returns (deleted: bool)
      requires Valid()
      modifies this
      ensures Valid()
      ensures tablePages == Forgotten(old(tablePages), page, table)
      ensures deleted <==> tablePages.Keys != old(tablePages.Keys)
      ensures PagesFor(pageTables, page) == old(PagesFor(pageTables, page)) - {table}
    {
      deleted := false;
      if table in tablePages {
        var pages := tablePages[table] - {page};
        if pages == {} {
          tablePages := tablePages - {table};
          deleted := true;
        } else {
          tablePages := tablePages[table := pages];
        }
      }
      if page in pageTables {
        var tables := pageTables[page] - {table};
        pageTables := if tables == {} then pageTables - {page} else pageTables[page := tables];
      }
      forall p, t ensures Agree(tablePages, pageTables, p, t) {
        assert Agree(old(tablePages), old(pageTables), p, t);
      }
    }

    method DropPage(page: string) returns (dropped: bool)
      requires Valid()
      modifies this
      ensures Valid()
      ensures tablePages == Dropped(old(tablePages), page)
      ensures dropped <==> tablePages.Keys != old(tablePages.Keys)
    {
      dropped := false;
      var tables := PagesFor(pageTables, page);
      ghost var subs := tablePages;
      forall t | t in subs && t !in tables ensures subs[t] - {page} == subs[t] && subs[t] != {page} {
        assert Agree(subs, pageTables, page, t);
      }
      forall t | t in tables ensures t in subs && page in subs[t] {
        assert Agree(subs, pageTables, page, t);
      }
      assert subs == Dropping(subs, page, tables);
      var left := tables;
      while left != {}
        invariant Valid() && left <= tables
        invariant PagesFor(pageTables, page) == left
        invariant tablePages == Dropping(subs, page, left)
        invariant dropped <==> tablePages.Keys != subs.Keys
      {
        var table :| table in left;
        DroppingStep(subs, page, left, table);
        var deleted := Forget(page, table);
        dropped := deleted || dropped;
        left := left - {table};
      }
      assert Dropping(subs, page, {}) == Dropped(subs, page);
    }
  }
}
