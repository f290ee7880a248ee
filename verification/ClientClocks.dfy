/** The client clocks: what a page reports of its user's last action and last call climbs
    to its connection and its user, in place, row by row. */
module ClientClocks {

  /** The two clocks of a row; absent until something was reported. */
  datatype Clock = Unset | At(time: int)

  datatype Clocks = Clocks(user: Clock, rpc: Clock)

  datatype Page = Page(connection: string, clocks: Clocks)

  datatype Connection = Connection(user: string, clocks: Clocks)

  datatype Rows = Rows(pages: map<string, Page>, connections: map<string, Connection>, users: map<string, Clocks>)

  /** `Broken` is the error met where a link above the page is gone; `Nothing` the answer
      for a dead page. */
  datatype Answer = Refreshed(user: string) | Nothing | Broken

  /** A clock that is unset, or zero, is simply replaced. */
  function Climbed(current: Clock, reported: Clock): Clock {
    if reported.Unset? then current
    else if current.Unset? || current.time == 0 then reported
    else if current.time < reported.time then reported
    else current
  }

  function BothClimbed(c: Clocks, reported: Clocks): Clocks {
    Clocks(Climbed(c.user, reported.user), Climbed(c.rpc, reported.rpc))
  }

  const NO_CLOCKS := Clocks(Unset, Unset)

  /** A missing connection stops the refresh before any row is written; a missing user
      stops it when page and connection are written already, unless no clock was
      reported: then no row is touched and nothing is answered. */
  function Refresh(rows: Rows, page: string, reported: Clocks): (Rows, Answer) {
    if page !in rows.pages then (rows, Nothing)
    else
      var p := rows.pages[page];
      if p.connection !in rows.connections then (rows, Broken)
      else
        var c := rows.connections[p.connection];
        var rows' := rows.(
          pages := rows.pages[page := p.(clocks := BothClimbed(p.clocks, reported))],
          connections := rows.connections[p.connection := c.(clocks := BothClimbed(c.clocks, reported))]);
        if c.user !in rows.users then (rows', if reported == NO_CLOCKS then Nothing else Broken)
        else (rows'.(users := rows.users[c.user := BothClimbed(rows.users[c.user], reported)]), Refreshed(c.user))
  }

  /** Whose row a page's chain ends at, if no link of it is missing. */
  predicate EndsAt(rows: Rows, page: string, user: string) {
    && page in rows.pages && rows.pages[page].connection in rows.connections
    && user == rows.connections[rows.pages[page].connection].user && user in rows.users
  }

  /** A refresh names the user its page's chain ends at; a dead page gets nothing, and a
      chain that breaks above the page raises, unless it is the user that is missing and no
      clock was reported. */
  lemma WhatARefreshAnswers(rows: Rows, page: string, reported: Clocks, user: string)
    ensures var answer := Refresh(rows, page, reported).1;
            && (answer == Refreshed(user) <==> EndsAt(rows, page, user))
            && (page !in rows.pages ==> answer == Nothing)
            && (page in rows.pages && rows.pages[page].connection !in rows.connections ==> answer == Broken)
            && (UserIsMissing(rows, page) ==> answer == if reported == NO_CLOCKS then Nothing else Broken)
  {
  }

  /** The user of the page's connection has no row; every other link is there. */
  predicate UserIsMissing(rows: Rows, page: string) {
    && page in rows.pages && rows.pages[page].connection in rows.connections
    && rows.connections[rows.pages[page].connection].user !in rows.users
  }

  /** The page's or its connection's clocks would climb. */
  predicate BelowTheUserClimbs(rows: Rows, page: string, reported: Clocks)
    requires page in rows.pages && rows.pages[page].connection in rows.connections
  {
    var p := rows.pages[page];
    var c := rows.connections[p.connection];
    BothClimbed(p.clocks, reported) != p.clocks || BothClimbed(c.clocks, reported) != c.clocks
  }

  /** A refresh that reaches no user leaves something written exactly when the user's row
      is all that is missing and a clock below it climbs; it raises then. */
  lemma WhatAFailedRefreshLeaves(rows: Rows, page: string, reported: Clocks)
    requires !Refresh(rows, page, reported).1.Refreshed?
    ensures var (rows', answer) := Refresh(rows, page, reported);
            && (rows' != rows <==> UserIsMissing(rows, page) && BelowTheUserClimbs(rows, page, reported))
            && (rows' != rows ==> answer == Broken)
            && rows'.users == rows.users
            && (answer == Broken <==> page in rows.pages && (UserIsMissing(rows, page) ==> reported != NO_CLOCKS))
  {
  }

  class Worker {
    var pages: map<string, Page>
    var connections: map<string, Connection>
    var users: map<string, Clocks>

    ghost function Value(): Rows
      reads this
    {
      Rows(pages, connections, users)
    }

    constructor (rows: Rows)
      ensures Value() == rows
    {
      pages, connections, users := rows.pages, rows.connections, rows.users;
    }

    method LocalRefresh(page: string, reported: Clocks) returns (answer: Answer)
      modifies this
      ensures (Value(), answer) == Refresh(old(Value()), page, reported)
    {
      if page !in pages {
        return Nothing;
      }
      var p := pages[page];
      if p.connection !in connections {
        return Broken;
      }
      var c := connections[p.connection];
      pages := pages[page := p.(clocks := BothClimbed(p.clocks, reported))];
      connections := connections[p.connection := c.(clocks := BothClimbed(c.clocks, reported))];
      if c.user !in users {
        return if reported == NO_CLOCKS then Nothing else Broken;
      }
      users := users[c.user := BothClimbed(users[c.user], reported)];
      return Refreshed(c.user);
    }
  }

  /* ---------------- over runs ---------------- */

  datatype Report = Report(page: string, reported: Clocks)

  function AfterReports(rows: Rows, reports: seq<Report>): Rows {
    if reports == [] then rows
    else
      var last := reports[|reports| - 1];
      Refresh(AfterReports(rows, reports[..|reports| - 1]), last.page, last.reported).0
  }

  function Later(a: Clock, b: Clock): Clock {
    if a.Unset? then b else if b.Unset? || b.time <= a.time then a else b
  }

  function BothLater(a: Clocks, b: Clocks): Clocks {
    Clocks(Later(a.user, b.user), Later(a.rpc, b.rpc))
  }

  /** A clock keeps the later of the two times, unless a negative one meets a zero. */
  lemma ClimbingIsLater(current: Clock, reported: Clock)
    ensures Climbed(current, reported) == Later(current, reported)
       <==> !(current == At(0) && reported.At? && reported.time < 0)
  {
  }

  predicate NotNegative(c: Clocks) {
    (c.user.At? ==> c.user.time >= 0) && (c.rpc.At? ==> c.rpc.time >= 0)
  }

  predicate OnPage(rows: Rows, page: string, q: string) {
    page == q && q in rows.pages && rows.pages[q].connection in rows.connections
  }

  predicate OnConnection(rows: Rows, page: string, connection: string) {
    page in rows.pages && rows.pages[page].connection == connection && connection in rows.connections
  }

  predicate OnUser(rows: Rows, page: string, user: string) {
    && page in rows.pages && rows.pages[page].connection in rows.connections
    && rows.connections[rows.pages[page].connection].user == user && user in rows.users
  }

  /** The latest of a first reading and of the reports that concern somebody. */
  function Latest(first: Clocks, reports: seq<Report>, concerns: string -> bool): Clocks {
    if reports == [] then first
    else
      var last := reports[|reports| - 1];
      var before := Latest(first, reports[..|reports| - 1], concerns);
      if concerns(last.page) then BothLater(before, last.reported) else before
  }

  predicate SameChain(a: Rows, b: Rows) {
    && a.pages.Keys == b.pages.Keys && a.connections.Keys == b.connections.Keys && a.users.Keys == b.users.Keys
    && (forall p <- a.pages :: a.pages[p].connection == b.pages[p].connection)
    && (forall c <- a.connections :: a.connections[c].user == b.connections[c].user)
  }

  function IfOn(on: bool, c: Clocks, reported: Clocks): Clocks {
    if on then BothClimbed(c, reported) else c
  }

  /** A report moves the clocks of the rows its chain reaches, and nothing else. */
  lemma RefreshTouches(rows: Rows, page: string, reported: Clocks)
    ensures var after := Refresh(rows, page, reported).0;
            && SameChain(rows, after)
            && (forall u <- rows.users :: after.users[u] == IfOn(OnUser(rows, page, u), rows.users[u], reported))
            && (forall c <- rows.connections ::
                  after.connections[c].clocks == IfOn(OnConnection(rows, page, c), rows.connections[c].clocks, reported))
            && (forall q <- rows.pages ::
                  after.pages[q].clocks == IfOn(OnPage(rows, page, q), rows.pages[q].clocks, reported))
  {
  }

  lemma BothLaterIsClimbing(c: Clocks, reported: Clocks)
    requires NotNegative(reported)
    ensures BothClimbed(c, reported) == BothLater(c, reported)
  {
  }

  /** After any run of reports a page's clocks are the latest of its own reports, and its
      connection's and its user's the latest among all the pages below, where a report
      counts for the rows its chain reaches before it breaks. */
  lemma {:induction false} ClocksAreTheLatestReports(rows: Rows, reports: seq<Report>)
    requires forall r <- reports :: NotNegative(r.reported)
    ensures SameChain(rows, AfterReports(rows, reports))
    ensures forall u <- rows.users ::
              AfterReports(rows, reports).users[u] == Latest(rows.users[u], reports, p => OnUser(rows, p, u))
    ensures forall c <- rows.connections ::
              AfterReports(rows, reports).connections[c].clocks ==
              Latest(rows.connections[c].clocks, reports, p => OnConnection(rows, p, c))
    ensures forall q <- rows.pages ::
              AfterReports(rows, reports).pages[q].clocks ==
              Latest(rows.pages[q].clocks, reports, p => OnPage(rows, p, q))
  {
    if reports != [] {
      var front, last := reports[..|reports| - 1], reports[|reports| - 1];
      ClocksAreTheLatestReports(rows, front);
      assert last in reports;
      RefreshTouches(AfterReports(rows, front), last.page, last.reported);
      forall c: Clocks ensures BothClimbed(c, last.reported) == BothLater(c, last.reported) {
        BothLaterIsClimbing(c, last.reported);
      }
    }
  }

  predicate NotAfter(a: Clocks, b: Clocks) {
    BothLater(a, b) == b
  }

  /** No page is ahead of its connection, nor a connection of its user. */
  predicate Climbing(rows: Rows) {
    PagesBehind(rows) && ConnectionsBehind(rows)
  }

  predicate PagesBehind(rows: Rows) {
    forall p <- rows.pages :: rows.pages[p].connection in rows.connections ==>
      NotAfter(rows.pages[p].clocks, rows.connections[rows.pages[p].connection].clocks)
  }

  predicate ConnectionsBehind(rows: Rows) {
    forall c <- rows.connections :: rows.connections[c].user in rows.users ==>
      NotAfter(rows.connections[c].clocks, rows.users[rows.connections[c].user])
  }

  lemma LaterKeepsOrder(a: Clocks, b: Clocks, reported: Clocks)
    requires NotAfter(a, b)
    ensures NotAfter(BothLater(a, reported), BothLater(b, reported)) && NotAfter(a, BothLater(b, reported))
  {
  }

  lemma RefreshKeepsPages(rows: Rows, page: string, reported: Clocks)
    requires PagesBehind(rows) && NotNegative(reported)
    ensures PagesBehind(Refresh(rows, page, reported).0)
  {
    var after := Refresh(rows, page, reported).0;
    RefreshTouches(rows, page, reported);
    forall p | p in after.pages && after.pages[p].connection in after.connections
      ensures NotAfter(after.pages[p].clocks, after.connections[after.pages[p].connection].clocks)
    {
      BothLaterIsClimbing(rows.pages[p].clocks, reported);
      BothLaterIsClimbing(rows.connections[rows.pages[p].connection].clocks, reported);
      LaterKeepsOrder(rows.pages[p].clocks, rows.connections[rows.pages[p].connection].clocks, reported);
    }
  }

  lemma RefreshKeepsConnections(rows: Rows, page: string, reported: Clocks)
    requires ConnectionsBehind(rows) && NotNegative(reported)
    ensures ConnectionsBehind(Refresh(rows, page, reported).0)
  {
    var after := Refresh(rows, page, reported).0;
    RefreshTouches(rows, page, reported);
    forall c | c in after.connections && after.connections[c].user in after.users
      ensures NotAfter(after.connections[c].clocks, after.users[after.connections[c].user])
    {
      BothLaterIsClimbing(rows.connections[c].clocks, reported);
      BothLaterIsClimbing(rows.users[rows.connections[c].user], reported);
      LaterKeepsOrder(rows.connections[c].clocks, rows.users[rows.connections[c].user], reported);
    }
  }

  lemma {:induction false} ReportsKeepClimbing(rows: Rows, reports: seq<Report>)
    requires Climbing(rows) && forall r <- reports :: NotNegative(r.reported)
    ensures Climbing(AfterReports(rows, reports))
  {
    if reports != [] {
      var front, last := reports[..|reports| - 1], reports[|reports| - 1];
      ReportsKeepClimbing(rows, front);
      assert last in reports;
      RefreshKeepsPages(AfterReports(rows, front), last.page, last.reported);
      RefreshKeepsConnections(AfterReports(rows, front), last.page, last.reported);
    }
  }
}
