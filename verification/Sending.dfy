/** One request and its classification: how a call is sent, and which of the three
    kinds of error it counts under. */
module Sending {
  import opened Wrappers
  import opened Counting

  /** What an exception shows of itself, its class name at the least. */
  type Repr = s: string | s != "" witness "E"

  /** What one attempt on the wire brings back: a reply, with or without the marker of
      an application error in its body, or an exception. */
  datatype Attempt = Reply(status: int, marked: bool) | Raised(text: Repr)

  /** A finished call as its row carries it; an absent error is an empty text. */
  datatype Outcome = Outcome(status: Option<int>, appError: string, transportError: string)

  datatype Kind = Success | HttpError | AppError | TransportError

  const ATTEMPTS := 2

  /** The text kept of an exception is cut at 120 characters. */
  function Cut(text: Repr): Repr {
    if |text| <= 120 then text else text[..120]
  }

  /** `wire` says what each attempt would bring. One retry, on an exception alone. */
  method Send(wire: seq<Attempt>) returns (outcome: Outcome, used: nat)
    requires |wire| == ATTEMPTS
    ensures used == if wire[0].Raised? then 2 else 1
    ensures outcome == OutcomeOf(wire[used - 1])
  {
    used := 0;
    while used < ATTEMPTS
      invariant used <= ATTEMPTS
      invariant forall i :: 0 <= i < used ==> wire[i].Raised?
      invariant used < ATTEMPTS
    {
      var attempt := wire[used];
      used := used + 1;
      match attempt
      case Reply(status, marked) =>
        if status != 200 { return Outcome(Some(status), "", ""), used; }
        if marked { return Outcome(Some(status), "application error", ""), used; }
        return Outcome(Some(status), "", ""), used;
      case Raised(text) =>
        if used == ATTEMPTS { return Outcome(None, "", Cut(text)), used; }
    }
  }

  function OutcomeOf(attempt: Attempt): Outcome {
    match attempt
    case Reply(status, marked) =>
      Outcome(Some(status), if status == 200 && marked then "application error" else "", "")
    case Raised(text) => Outcome(None, "", Cut(text))
  }

  /** The kind a running counter files the call under. */
  function KindOf(o: Outcome): Kind {
    if o.transportError != "" then TransportError
    else if o.appError != "" then AppError
    else if o.status != Some(200) then HttpError
    else Success
  }

  /** A sent call keeps the status of the reply it got, and of an exception its first 120
      characters and no status. */
  lemma WhatACallKeeps(attempt: Attempt)
    ensures var o := OutcomeOf(attempt);
            && (attempt.Reply? ==>
                  o.status == Some(attempt.status) && o.transportError == ""
                  && (o.appError != "" <==> attempt.status == 200 && attempt.marked))
            && (attempt.Raised? ==>
                  o.status == None && o.appError == "" && o.transportError != "" && o.transportError <= attempt.text
                  && (|o.transportError| == 120 || o.transportError == attempt.text) && |o.transportError| <= 120)
  {
  }

  /** A sent call never wears two errors, and its kind is read off the last attempt. */
  lemma SendReportsOneKind(attempt: Attempt)
    ensures var o := OutcomeOf(attempt);
            && !(o.appError != "" && o.transportError != "")
            && (KindOf(o) == TransportError <==> attempt.Raised?)
            && (KindOf(o) == HttpError <==> attempt.Reply? && attempt.status != 200)
            && (KindOf(o) == AppError <==> attempt.Reply? && attempt.status == 200 && attempt.marked)
  {
  }

  /* ---------------- a window's three counts ---------------- */

  /** One completed call of the measure. */
  datatype Row = Row(phase: string, user: string, lateness: int, latency: int, outcome: Outcome)

  predicate CountsHttp(r: Row) {
    r.outcome.transportError == "" && r.outcome.appError == "" && r.outcome.status != Some(200)
  }

  predicate CountsApp(r: Row) {
    r.outcome.appError != ""
  }

  predicate CountsTransport(r: Row) {
    r.outcome.transportError != ""
  }

  predicate Responded(r: Row) {
    r.outcome.transportError == ""
  }

  predicate IsKind(r: Row, kind: Kind) {
    KindOf(r.outcome) == kind
  }

  predicate Succeeded(r: Row) {
    IsKind(r, Success)
  }

  /** The call does not wear two errors. */
  predicate OneKind(r: Row) {
    r.outcome.appError == "" || r.outcome.transportError == ""
  }

  /** The errors a window reports, and its successes. */
  function KindSum(rows: seq<Row>): nat {
    CountIf(rows, CountsHttp) + CountIf(rows, CountsApp) + CountIf(rows, CountsTransport) + CountIf(rows, Succeeded)
  }

  lemma {:induction false} KindsCover(rows: seq<Row>)
    ensures KindSum(rows) >= |rows|
    ensures KindSum(rows) == |rows| <==> forall r <- rows :: OneKind(r)
  {
    if rows != [] {
      var front, last := rows[..|rows| - 1], rows[|rows| - 1];
      KindsCover(front);
      assert KindSum(rows) == KindSum(front) + if OneKind(last) then 1 else 2;
      assert forall r :: r in rows <==> r in front || r == last;
    }
  }

  lemma CountsAreKinds(r: Row)
    requires OneKind(r)
    ensures CountsHttp(r) == IsKind(r, HttpError)
    ensures CountsApp(r) == IsKind(r, AppError)
    ensures CountsTransport(r) == IsKind(r, TransportError)
  {
  }

  /** A window's errors and its successes share out its completed calls exactly when no
      call wears two errors, and then agree with the kinds the running counters use. */
  lemma ErrorsPartitionTheWindow(rows: seq<Row>)
    ensures KindSum(rows) == |rows| <==> forall r <- rows :: OneKind(r)
    ensures (forall r <- rows :: OneKind(r)) ==>
              (CountIf(rows, CountsHttp) == CountIf(rows, r => IsKind(r, HttpError)) &&
               CountIf(rows, CountsApp) == CountIf(rows, r => IsKind(r, AppError)) &&
               CountIf(rows, CountsTransport) == CountIf(rows, r => IsKind(r, TransportError)))
  {
    KindsCover(rows);
    if forall r <- rows :: OneKind(r) {
      forall r <- rows
        ensures CountsHttp(r) == IsKind(r, HttpError) && CountsApp(r) == IsKind(r, AppError)
        ensures CountsTransport(r) == IsKind(r, TransportError)
      {
        CountsAreKinds(r);
      }
      CountsAgree(rows, CountsHttp, r => IsKind(r, HttpError));
      CountsAgree(rows, CountsApp, r => IsKind(r, AppError));
      CountsAgree(rows, CountsTransport, r => IsKind(r, TransportError));
    }
  }

  /** Whatever the wire brings, calls that were all sent by `Send` do share out. */
  lemma SentCallsPartition(rows: seq<Row>)
    requires forall r <- rows :: exists attempt :: r.outcome == OutcomeOf(attempt)
    ensures CountIf(rows, CountsHttp) + CountIf(rows, CountsApp) + CountIf(rows, CountsTransport)
            + CountIf(rows, Succeeded) == |rows|
  {
    forall r <- rows ensures OneKind(r) {
      var attempt :| r.outcome == OutcomeOf(attempt);
      SendReportsOneKind(attempt);
    }
    KindsCover(rows);
  }
}
