/** The item locks of the register: a table with a holder and a count per item, taken by
    the stores that threads enter and leave, each with a bounded number of retries. */
module ItemLocks {
  type Thread = int

  /** An item of one register. */
  datatype Item = Item(register: string, id: string)

  /** `reason` is the thread whose store took the item first. */
  datatype Hold = Hold(reason: Thread, count: int)

  type Table = map<Item, Hold>

  const GLOBAL := "global"

  predicate Grantable(table: Table, item: Item, reason: Thread) {
    item.register == GLOBAL || item !in table || table[item].reason == reason
  }

  function Locked(table: Table, item: Item, reason: Thread): Table
    requires Grantable(table, item, reason)
  {
    if item.register == GLOBAL then table
    else if item !in table then table[item := Hold(reason, 1)]
    else table[item := table[item].(count := table[item].count + 1)]
  }

  function Unlocked(table: Table, item: Item): Table {
    if item.register == GLOBAL || item !in table then table
    else if table[item].count <= 1 then table - {item}
    else table[item := table[item].(count := table[item].count - 1)]
  }

  class RegisterLocks {
    var itemLocks: Table

    constructor ()
      ensures itemLocks == map[]
    {
      itemLocks := map[];
    }

    method LockItem(item: Item, reason: Thread) returns (granted: bool)
      modifies this
      ensures granted == Grantable(old(itemLocks), item, reason)
      ensures itemLocks == if granted then Locked(old(itemLocks), item, reason) else old(itemLocks)
    {
      if item.register == GLOBAL {
        return true;
      }
      if item !in itemLocks {
        itemLocks := itemLocks[item := Hold(reason, 1)];
        return true;
      }
      var held := itemLocks[item];
      if held.reason == reason {
        itemLocks := itemLocks[item := held.(count := held.count + 1)];
        return true;
      }
      return false;
    }

    /** Whoever asks is served: the reason of the request is never looked at. */
    method UnlockItem(item: Item, reason: Thread) returns (done: bool)
      modifies this
      ensures done
      ensures itemLocks == Unlocked(old(itemLocks), item)
    {
      if item.register == GLOBAL || item !in itemLocks {
        return true;
      }
      var held := itemLocks[item];
      itemLocks := itemLocks[item := held.(count := held.count - 1)];
      if held.count - 1 <= 0 {
        itemLocks := itemLocks - {item};
      }
      assert held.count > 1 || itemLocks == old(itemLocks) - {item};
      return true;
    }
  }

  /* ---------------- one entry: attempts and waits ---------------- */

  const LOCK_MAX_RETRY := 50
  const RETRY_DELAY := 50          // milliseconds
  const RETRY_DELAY_MAX := 2000    // milliseconds

  datatype Entry = Entered(attempt: nat, table: Table) | GnrDaemonLocked

  /** The pause after a refused attempt. */
  function PauseAfter(attempt: nat): nat {
    if attempt == 0 then RETRY_DELAY else Smaller(2 * PauseAfter(attempt - 1), RETRY_DELAY_MAX)
  }

  function Smaller(a: int, b: int): int {
    if a <= b then a else b
  }

  function PausesBefore(attempt: nat): nat {
    if attempt == 0 then 0 else PausesBefore(attempt - 1) + PauseAfter(attempt - 1)
  }

  lemma {:induction false} PausesInClosedForm(attempt: nat)
    ensures PauseAfter(attempt) == if attempt <= 5 then 50 * Power(attempt) else 2000
    ensures PausesBefore(attempt) == if attempt <= 6 then 50 * (Power(attempt) - 1)
                                     else 3150 + 2000 * (attempt - 6)
  {
    if attempt > 0 {
      PausesInClosedForm(attempt - 1);
    }
    assert Power(0) == 1 && Power(1) == 2 && Power(2) == 4 && Power(3) == 8;
    assert Power(4) == 16 && Power(5) == 32 && Power(6) == 64;
  }

  function Power(n: nat): nat {
    if n == 0 then 1 else 2 * Power(n - 1)
  }

  /** Entering a store. `found` is the lock table as each attempt finds it, whatever the
      other threads did in between. The entry succeeds at the first attempt that finds
      the item free or held for the same reason; it fails only after all of them,
      having waited 91.15 seconds. */
  method Enter(item: Item, reason: Thread, found: seq<Table>) returns (entry: Entry, waited: nat)
    requires |found| == LOCK_MAX_RETRY + 1
    ensures entry.GnrDaemonLocked? <==> forall i :: 0 <= i < |found| ==> !Grantable(found[i], item, reason)
    ensures entry.GnrDaemonLocked? ==> waited == 91150
    ensures entry.Entered? ==> (
              && entry.attempt < |found|
              && (forall i :: 0 <= i < entry.attempt ==> !Grantable(found[i], item, reason))
              && Grantable(found[entry.attempt], item, reason)
              && entry.table == Locked(found[entry.attempt], item, reason)
              && waited == PausesBefore(entry.attempt))
  {
    var delay := RETRY_DELAY;
    waited := 0;
    for attempt := 0 to LOCK_MAX_RETRY + 1
      invariant forall i :: 0 <= i < attempt ==> !Grantable(found[i], item, reason)
      invariant attempt <= LOCK_MAX_RETRY ==> delay == PauseAfter(attempt)
      invariant waited == PausesBefore(Smaller(attempt, LOCK_MAX_RETRY))
    {
      if Grantable(found[attempt], item, reason) {
        return Entered(attempt, Locked(found[attempt], item, reason)), waited;
      }
      if attempt < LOCK_MAX_RETRY {
        waited := waited + delay;
        delay := Smaller(delay * 2, RETRY_DELAY_MAX);
      }
    }
    PausesInClosedForm(LOCK_MAX_RETRY);
    return GnrDaemonLocked, waited;
  }
}
