/** What the cycle scenario adds to the engine: who is admitted, and the first call of
    every user that comes back. Expecting a return and taking one are atomic under the
    engine's lock; the record of one taken is added later, without the lock, by the
    thread of the user it is about. */
module CycleEngine {
  datatype Return = Return(user: string, position: int)

  class CycleEngine {
    var calling: set<string>
    var awaitingReturn: map<string, int>
    var returnCalls: seq<Return>

    constructor ()
      ensures calling == {} && awaitingReturn == map[] && returnCalls == []
    {
      calling, awaitingReturn, returnCalls := {}, map[], [];
    }

    method Admit(user: string)
      modifies this`calling
      ensures calling == old(calling) + {user}
    {
      calling := calling + {user};
    }

    method ExpectReturn(user: string, position: int)
      modifies this`awaitingReturn
      ensures State(awaitingReturn, map[], returnCalls)
           == Happened(State(old(awaitingReturn), map[], returnCalls), Expect(user, position))
    {
      awaitingReturn := awaitingReturn[user := position];
    }

    /** What a completed call adds to the shared accounting, no other thread between. */
    method RecordReturn(user: string)
      modifies this`awaitingReturn, this`returnCalls
      ensures var taken := Happened(State(old(awaitingReturn), map[], old(returnCalls)), Complete(user));
              State(awaitingReturn, map[], returnCalls) == if user in taken.held then Happened(taken, File(user)) else taken
    {
      if user in awaitingReturn {
        var position := awaitingReturn[user];
        awaitingReturn := awaitingReturn - {user};
        assert map[user := position] - {user} == map[];
        returnCalls := returnCalls + [Return(user, position)];
      }
    }
  }

  /** `held` are the returns taken whose records their threads have yet to add. */
  datatype State = State(awaiting: map<string, int>, held: map<string, int>, records: seq<Return>)

  datatype Event = Expect(user: string, position: int) | Complete(user: string) | File(user: string)

  /** A user's thread adds the record of a return before it completes another call. */
  predicate Enabled(s: State, e: Event) {
    (e.Complete? ==> e.user !in s.held) && (e.File? ==> e.user in s.held)
  }

  function Happened(s: State, e: Event): State
    requires Enabled(s, e)
  {
    match e
    case Expect(user, position) => s.(awaiting := s.awaiting[user := position])
    case Complete(user) =>
      if user in s.awaiting then
        s.(awaiting := s.awaiting - {user}, held := s.held[user := s.awaiting[user]])
      else s
    case File(user) => s.(held := s.held - {user}, records := s.records + [Return(user, s.held[user])])
  }

  predicate Feasible(es: seq<Event>)
    decreases |es|, 0
  {
    es == [] || (Feasible(es[..|es| - 1]) && Enabled(After(es[..|es| - 1]), es[|es| - 1]))
  }

  function After(es: seq<Event>): State
    requires Feasible(es)
    decreases |es|, 1
  {
    if es == [] then State(map[], map[], []) else Happened(After(es[..|es| - 1]), es[|es| - 1])
  }

  /** Of the user's returns and calls the last is that its return is expected at this
      position. */
  predicate Announced(es: seq<Event>, j: int, user: string, position: int) {
    && 0 <= j < |es| && es[j] == Expect(user, position)
    && forall i :: j < i < |es| ==> es[i].user != user || es[i].File?
  }

  lemma {:induction false} AwaitingIsAnnounced(es: seq<Event>, user: string, position: int)
    requires Feasible(es)
    ensures user in After(es).awaiting && After(es).awaiting[user] == position
       <==> exists j :: Announced(es, j, user, position)
  {
    if es != [] {
      var front, last := es[..|es| - 1], es[|es| - 1];
      AwaitingIsAnnounced(front, user, position);
      if last.user == user && !last.File? {
        if last == Expect(user, position) {
          assert Announced(es, |es| - 1, user, position);
        }
      } else {
        if j :| Announced(front, j, user, position) {
          assert Announced(es, j, user, position);
        }
        if j :| Announced(es, j, user, position) {
          assert Announced(front, j, user, position);
        }
      }
    }
  }

  /** A completed call takes a return exactly when it is the user's first since its return
      was expected, and then under that position. */
  lemma FirstCallAfterAReturn(es: seq<Event>, user: string, position: int)
    requires Feasible(es) && Feasible(es + [Complete(user)])
    ensures var after := After(es + [Complete(user)]);
            && (user in after.held && after.held[user] == position <==> exists j :: Announced(es, j, user, position))
            && after.records == After(es).records
  {
    assert (es + [Complete(user)])[..|es|] == es;
    AwaitingIsAnnounced(es, user, position);
  }

  function ExpectsOf(es: seq<Event>, user: string): nat {
    if es == [] then 0
    else ExpectsOf(es[..|es| - 1], user) + if es[|es| - 1].Expect? && es[|es| - 1].user == user then 1 else 0
  }

  /** How often a return was expected again before the first one was taken. */
  function ReplacedOf(es: seq<Event>, user: string): nat
    requires Feasible(es)
  {
    if es == [] then 0
    else
      var front, last := es[..|es| - 1], es[|es| - 1];
      ReplacedOf(front, user) + if last.Expect? && last.user == user && user in After(front).awaiting then 1 else 0
  }

  function ReturnsOf(records: seq<Return>, user: string): nat {
    if records == [] then 0
    else ReturnsOf(records[..|records| - 1], user) + if records[|records| - 1].user == user then 1 else 0
  }

  lemma ReturnsAppend(records: seq<Return>, r: Return, user: string)
    ensures ReturnsOf(records + [r], user) == ReturnsOf(records, user) + if r.user == user then 1 else 0
  {
    assert (records + [r])[..|records|] == records;
  }

  /** Every expected return is recorded, about to be recorded, awaited, or was expected
      anew, whatever the threads of other users do in between. */
  lemma {:induction false} ReturnsAreConserved(es: seq<Event>, user: string)
    requires Feasible(es)
    ensures var s := After(es);
            ExpectsOf(es, user) == ReturnsOf(s.records, user) + (if user in s.held then 1 else 0)
                                   + ReplacedOf(es, user) + (if user in s.awaiting then 1 else 0)
  {
    if es != [] {
      var front, last := es[..|es| - 1], es[|es| - 1];
      ReturnsAreConserved(front, user);
      if last.File? {
        ReturnsAppend(After(front).records, Return(last.user, After(front).held[last.user]), user);
      }
    }
  }

  /** A user expected back once yields exactly one record, at hand as soon as a call of
      its completes afterwards, and no other, however many more complete. */
  lemma OneRecordPerReturn(es: seq<Event>, user: string, j: nat)
    requires Feasible(es) && j < |es| && es[j].Expect? && es[j].user == user
    requires forall i :: 0 <= i < |es| && i != j ==> !(es[i].Expect? && es[i].user == user)
    ensures ReturnsOf(After(es).records, user) + (if user in After(es).held then 1 else 0)
         == if exists k :: j < k < |es| && es[k] == Complete(user) then 1 else 0
  {
    OneExpect(es, user, j);
    ReturnsAreConserved(es, user);
    if k :| j < k < |es| && es[k] == Complete(user) {
      NotAwaitedAfterACall(es, user, k);
    } else {
      assert Announced(es, j, user, es[j].position);
      AwaitingIsAnnounced(es, user, es[j].position);
    }
  }

  lemma {:induction false} NoExpect(es: seq<Event>, user: string)
    requires Feasible(es) && forall i :: 0 <= i < |es| ==> !(es[i].Expect? && es[i].user == user)
    ensures ExpectsOf(es, user) == 0 && ReplacedOf(es, user) == 0 && user !in After(es).awaiting
  {
    if es != [] {
      NoExpect(es[..|es| - 1], user);
    }
  }

  lemma {:induction false} OneExpect(es: seq<Event>, user: string, j: nat)
    requires Feasible(es) && j < |es| && es[j].Expect? && es[j].user == user
    requires forall i :: 0 <= i < |es| && i != j ==> !(es[i].Expect? && es[i].user == user)
    ensures ExpectsOf(es, user) == 1 && ReplacedOf(es, user) == 0
  {
    if j == |es| - 1 {
      NoExpect(es[..|es| - 1], user);
    } else {
      OneExpect(es[..|es| - 1], user, j);
    }
  }

  lemma {:induction false} NotAwaitedAfterACall(es: seq<Event>, user: string, k: nat)
    requires Feasible(es) && k < |es| && es[k] == Complete(user)
    requires forall i :: k < i < |es| ==> !(es[i].Expect? && es[i].user == user)
    ensures user !in After(es).awaiting
  {
    if k < |es| - 1 {
      NotAwaitedAfterACall(es[..|es| - 1], user, k);
    }
  }

  lemma FeasibleStep(es: seq<Event>, i: nat, s: State, s': State)
    requires i < |es| && Feasible(es[..i]) && After(es[..i]) == s && Enabled(s, es[i]) && Happened(s, es[i]) == s'
    ensures Feasible(es[..i + 1]) && After(es[..i + 1]) == s'
  {
    assert es[..i + 1][..i] == es[..i];
  }

  /** Two users come back and call, and the record of the second is filed first. */
  function Overtaking(user: string, other: string, p: int, q: int): seq<Event> {
    [Expect(user, p), Expect(other, q), Complete(user), Complete(other), File(other), File(user)]
  }

  lemma BothCalled(user: string, other: string, p: int, q: int)
    requires user != other
    ensures var front := Overtaking(user, other, p, q)[..4];
            Feasible(front) && After(front) == State(map[], map[user := p, other := q], [])
  {
    var es := Overtaking(user, other, p, q);
    var s1, s2 := State(map[user := p], map[], []), State(map[user := p, other := q], map[], []);
    var s3 := State(map[other := q], map[user := p], []);
    FeasibleStep(es, 0, State(map[], map[], []), s1);
    FeasibleStep(es, 1, s1, s2);
    assert s2.awaiting - {user} == s3.awaiting;
    FeasibleStep(es, 2, s2, s3);
    assert s3.awaiting - {other} == map[];
    FeasibleStep(es, 3, s3, State(map[], map[user := p, other := q], []));
  }

  /** The records of different users may come in another order than their calls did. */
  lemma RecordsMayOvertake(user: string, other: string, p: int, q: int)
    requires user != other
    ensures var es := Overtaking(user, other, p, q);
            Feasible(es) && After(es).records == [Return(other, q), Return(user, p)]
  {
    var es := Overtaking(user, other, p, q);
    var s4, s5 := State(map[], map[user := p, other := q], []), State(map[], map[user := p], [Return(other, q)]);
    BothCalled(user, other, p, q);
    assert s4.held - {other} == s5.held;
    FeasibleStep(es, 4, s4, s5);
    FeasibleStep(es, 5, s5, Happened(s5, File(user)));
    assert es[..6] == es;
  }
}
