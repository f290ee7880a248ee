/** A queue of addressed changes: how a message acts on it, and what it does to the
    client that collects it. */
module Datachanges {
  import opened Wrappers
  import opened Counting

  datatype Key = Key(path: string, reason: string, fired: bool)

  /** `arrival` is the clock reading at which the desk files the change. */
  datatype Change = Change(key: Key, value: int, delete: bool, arrival: int)

  datatype Op = SetChange(change: Change, replace: bool) | DropPrefix(path: string) | Reset

  predicate Under(path: string, prefix: string) {
    path == prefix || prefix + "." <= path
  }

  function WithoutKey(queue: seq<Change>, key: Key): seq<Change> {
    if queue == [] then []
    else (if queue[0].key != key then [queue[0]] else []) + WithoutKey(queue[1..], key)
  }

  function WithoutPrefix(queue: seq<Change>, prefix: string): seq<Change> {
    if queue == [] then []
    else (if !Under(queue[0].key.path, prefix) then [queue[0]] else []) + WithoutPrefix(queue[1..], prefix)
  }

  function FileChange(queue: seq<Change>, op: Op): seq<Change> {
    match op
    case Reset => []
    case DropPrefix(path) => WithoutPrefix(queue, path)
    case SetChange(change, replace) => (if replace then WithoutKey(queue, change.key) else queue) + [change]
  }

  /** The same message on a queue that never coalesces. */
  function FilePlainly(queue: seq<Change>, op: Op): seq<Change> {
    FileChange(queue, if op.SetChange? then op.(replace := false) else op)
  }

  function OffKey(key: Key): Change -> bool {
    (c: Change) => c.key != key
  }

  lemma {:induction false} WithoutKeyPicks(queue: seq<Change>, key: Key)
    ensures WithoutKey(queue, key) == Filter(queue, OffKey(key))
  {
    if queue != [] {
      WithoutKeyPicks(queue[1..], key);
      assert queue == [queue[0]] + queue[1..];
      FilterParts([queue[0]], queue[1..], OffKey(key));
      FilterOne(queue[0], OffKey(key));
    }
  }

  function OffPrefix(prefix: string): Change -> bool {
    (c: Change) => !Under(c.key.path, prefix)
  }

  lemma {:induction false} WithoutPrefixPicks(queue: seq<Change>, prefix: string)
    ensures WithoutPrefix(queue, prefix) == Filter(queue, OffPrefix(prefix))
  {
    if queue != [] {
      WithoutPrefixPicks(queue[1..], prefix);
      assert queue == [queue[0]] + queue[1..];
      FilterParts([queue[0]], queue[1..], OffPrefix(prefix));
      FilterOne(queue[0], OffPrefix(prefix));
    }
  }

  /* ---------------- what a client ends up with ---------------- */

  type Client = map<string, int>

  function ApplyChange(client: Client, c: Change): Client {
    if c.delete then client - {c.key.path} else client[c.key.path := c.value]
  }

  function Collect(client: Client, queue: seq<Change>): Client
    decreases |queue|
  {
    if queue == [] then client else Collect(ApplyChange(client, queue[0]), queue[1..])
  }

  /** The last word a queue has on a path. */
  function LastOn(queue: seq<Change>, path: string): Option<Change> {
    if queue == [] then None
    else
      var later := LastOn(queue[1..], path);
      if later.Some? then later
      else if queue[0].key.path == path then Some(queue[0])
      else None
  }

  ghost predicate SameMeaning(q: seq<Change>, r: seq<Change>) {
    forall path :: LastOn(q, path) == LastOn(r, path)
  }

  lemma {:induction false} CollectAt(client: Client, queue: seq<Change>, path: string)
    ensures match LastOn(queue, path)
            case None => (path in Collect(client, queue) <==> path in client) &&
                         (path in client ==> Collect(client, queue)[path] == client[path])
            case Some(c) => if c.delete then path !in Collect(client, queue)
                            else path in Collect(client, queue) && Collect(client, queue)[path] == c.value
    decreases |queue|
  {
    if queue != [] {
      CollectAt(ApplyChange(client, queue[0]), queue[1..], path);
    }
  }

  lemma SameMeaningSameClient(client: Client, q: seq<Change>, r: seq<Change>)
    requires SameMeaning(q, r)
    ensures Collect(client, q) == Collect(client, r)
  {
    forall path
      ensures path in Collect(client, q) <==> path in Collect(client, r)
      ensures path in Collect(client, q) ==> Collect(client, q)[path] == Collect(client, r)[path]
    {
      CollectAt(client, q, path);
      CollectAt(client, r, path);
    }
  }

  lemma {:induction false} LastOnAppend(queue: seq<Change>, c: Change, path: string)
    ensures LastOn(queue + [c], path) == if c.key.path == path then Some(c) else LastOn(queue, path)
  {
    if queue != [] {
      LastOnAppend(queue[1..], c, path);
      assert (queue + [c])[1..] == queue[1..] + [c];
    }
  }

  lemma {:induction false} LastOnWithoutKey(queue: seq<Change>, key: Key, path: string)
    requires path != key.path
    ensures LastOn(WithoutKey(queue, key), path) == LastOn(queue, path)
  {
    if queue != [] {
      LastOnWithoutKey(queue[1..], key, path);
      var rest := WithoutKey(queue[1..], key);
      assert ([queue[0]] + rest)[1..] == rest && [] + rest == rest;
    }
  }

  lemma {:induction false} LastOnWithoutPrefix(queue: seq<Change>, prefix: string, path: string)
    ensures LastOn(WithoutPrefix(queue, prefix), path)
         == if Under(path, prefix) then None else LastOn(queue, path)
  {
    if queue != [] {
      LastOnWithoutPrefix(queue[1..], prefix, path);
      var rest := WithoutPrefix(queue[1..], prefix);
      assert ([queue[0]] + rest)[1..] == rest && [] + rest == rest;
    }
  }

  lemma FilingKeepsMeaning(q: seq<Change>, r: seq<Change>, op: Op)
    requires SameMeaning(q, r)
    ensures SameMeaning(FileChange(q, op), FilePlainly(r, op))
  {
    forall path ensures LastOn(FileChange(q, op), path) == LastOn(FilePlainly(r, op), path) {
      assert LastOn(q, path) == LastOn(r, path);
      match op
      case Reset =>
      case DropPrefix(prefix) =>
        LastOnWithoutPrefix(q, prefix, path);
        LastOnWithoutPrefix(r, prefix, path);
      case SetChange(c, replace) =>
        LastOnAppend(if replace then WithoutKey(q, c.key) else q, c, path);
        LastOnAppend(r, c, path);
        if replace && path != c.key.path {
          LastOnWithoutKey(q, c.key, path);
        }
    }
  }

  /* ---------------- a queue over a whole run ---------------- */

  /** What happens to one queue: a message, a collect, or the loss of all that waits. */
  datatype Event = File(op: Op) | Drain | Lose

  /** A queue, and the client that applies everything it collects. */
  datatype Line = Line(queue: seq<Change>, client: Client)

  function Happen(line: Line, e: Event): Line {
    match e
    case File(op) => line.(queue := FileChange(line.queue, op))
    case Drain => Line([], Collect(line.client, line.queue))
    case Lose => line.(queue := [])
  }

  function HappenPlainly(line: Line, e: Event): Line {
    match e
    case File(op) => line.(queue := FilePlainly(line.queue, op))
    case _ => Happen(line, e)
  }

  function AllHappen(line: Line, es: seq<Event>): Line {
    if es == [] then line else Happen(AllHappen(line, es[..|es| - 1]), es[|es| - 1])
  }

  function AllHappenPlainly(line: Line, es: seq<Event>): Line {
    if es == [] then line else HappenPlainly(AllHappenPlainly(line, es[..|es| - 1]), es[|es| - 1])
  }

  /** Over every run, coalescing changes nothing of what the client ends up with: not
      what it holds after each collect, nor what it would hold if it collected now. */
  lemma {:induction false} CoalescingPreservesMeaning(client: Client, es: seq<Event>)
    ensures var line := AllHappen(Line([], client), es);
            var plain := AllHappenPlainly(Line([], client), es);
            && line.client == plain.client
            && SameMeaning(line.queue, plain.queue)
            && Collect(line.client, line.queue) == Collect(plain.client, plain.queue)
  {
    if es != [] {
      CoalescingPreservesMeaning(client, es[..|es| - 1]);
      var line := AllHappen(Line([], client), es[..|es| - 1]);
      var plain := AllHappenPlainly(Line([], client), es[..|es| - 1]);
      if es[|es| - 1].File? {
        FilingKeepsMeaning(line.queue, plain.queue, es[|es| - 1].op);
      }
    }
    SameMeaningSameClient(AllHappen(Line([], client), es).client,
                          AllHappen(Line([], client), es).queue, AllHappenPlainly(Line([], client), es).queue);
  }

  /* ---------------- one pending change per key ---------------- */

  ghost predicate DistinctKeys(queue: seq<Change>) {
    forall i, j :: 0 <= i < j < |queue| ==> queue[i].key != queue[j].key
  }

  ghost predicate Ordered(queue: seq<Change>) {
    forall i, j :: 0 <= i < j < |queue| ==> queue[i].arrival <= queue[j].arrival
  }

  lemma {:induction false} WithoutKeyKeeps(queue: seq<Change>, key: Key)
    ensures forall c :: c in WithoutKey(queue, key) <==> c in queue && c.key != key
    ensures DistinctKeys(queue) ==> DistinctKeys(WithoutKey(queue, key))
    ensures Ordered(queue) ==> Ordered(WithoutKey(queue, key))
  {
    if queue != [] {
      WithoutKeyKeeps(queue[1..], key);
      KeepingFromTheFront(queue, WithoutKey(queue[1..], key));
    }
  }

  lemma {:induction false} WithoutPrefixKeeps(queue: seq<Change>, prefix: string)
    ensures forall c :: c in WithoutPrefix(queue, prefix) <==> c in queue && !Under(c.key.path, prefix)
    ensures DistinctKeys(queue) ==> DistinctKeys(WithoutPrefix(queue, prefix))
    ensures Ordered(queue) ==> Ordered(WithoutPrefix(queue, prefix))
  {
    if queue != [] {
      var kept := WithoutPrefix(queue[1..], prefix);
      WithoutPrefixKeeps(queue[1..], prefix);
      KeepingFromTheFront(queue, kept);
      assert WithoutPrefix(queue, prefix) == if Under(queue[0].key.path, prefix) then kept else [queue[0]] + kept;
    }
  }

  /** A head set before a selection of the tail keeps what the whole queue had. */
  lemma KeepingFromTheFront(queue: seq<Change>, kept: seq<Change>)
    requires queue != [] && forall c <- kept :: c in queue[1..]
    ensures forall c <- queue :: c == queue[0] || c in queue[1..]
    ensures DistinctKeys(queue) ==> DistinctKeys(queue[1..])
    ensures DistinctKeys(queue) && DistinctKeys(kept) ==> DistinctKeys([queue[0]] + kept)
    ensures Ordered(queue) ==> Ordered(queue[1..])
    ensures Ordered(queue) && Ordered(kept) ==> Ordered([queue[0]] + kept)
  {
    var tail := queue[1..];
    assert forall i :: 0 <= i < |tail| ==> tail[i] == queue[i + 1];
    assert forall i :: 0 <= i < |kept| ==> kept[i] in tail;
  }

  predicate ReplacesAlways(es: seq<Event>) {
    forall e <- es :: e.File? && e.op.SetChange? ==> e.op.replace
  }

  /** When every write replaces, no two pending changes ever share path, reason and fired. */
  lemma {:induction false} ReplacingLeavesOnePerKey(client: Client, es: seq<Event>)
    requires ReplacesAlways(es)
    ensures DistinctKeys(AllHappen(Line([], client), es).queue)
  {
    if es != [] {
      var front, e := es[..|es| - 1], es[|es| - 1];
      assert e in es;
      ReplacingLeavesOnePerKey(client, front);
      var queue := AllHappen(Line([], client), front).queue;
      if e.File? {
        match e.op
        case Reset =>
        case DropPrefix(path) => WithoutPrefixKeeps(queue, path);
        case SetChange(c, _) => WithoutKeyKeeps(queue, c.key);
      }
    }
  }

  /** One replacing write is enough for its own key: of that key it leaves itself, last. */
  lemma ReplacingWriteIsTheOnlyOne(queue: seq<Change>, c: Change)
    ensures var after := FileChange(queue, SetChange(c, true));
            && after[|after| - 1] == c
            && (forall d <- after[..|after| - 1] :: d.key != c.key)
            && (forall d <- queue :: d.key != c.key ==> d in after)
  {
    WithoutKeyKeeps(queue, c.key);
  }

  /** The clock the desk files by never goes back. */
  predicate ClockRuns(es: seq<Event>) {
    forall i, j :: 0 <= i < j < |es| && es[i].File? && es[i].op.SetChange? && es[j].File? && es[j].op.SetChange?
      ==> es[i].op.change.arrival <= es[j].op.change.arrival
  }

  /** What waits is in arrival order, coalesced newcomers included. */
  lemma {:induction false} QueueIsInArrivalOrder(client: Client, es: seq<Event>)
    requires ClockRuns(es)
    ensures Ordered(AllHappen(Line([], client), es).queue)
    ensures forall c <- AllHappen(Line([], client), es).queue ::
              exists e | e in es :: e.File? && e.op.SetChange? && e.op.change == c
  {
    if es != [] {
      var front, e := es[..|es| - 1], es[|es| - 1];
      assert forall i :: 0 <= i < |front| ==> front[i] == es[i];
      QueueIsInArrivalOrder(client, front);
      var queue := AllHappen(Line([], client), front).queue;
      forall c <- queue ensures exists f | f in es :: f.File? && f.op.SetChange? && f.op.change == c {
        var f :| f in front && f.File? && f.op.SetChange? && f.op.change == c;
        assert f in es;
      }
      if e.File? {
        match e.op
        case Reset =>
        case DropPrefix(path) => WithoutPrefixKeeps(queue, path);
        case SetChange(c, replace) =>
          WithoutKeyKeeps(queue, c.key);
          forall d <- queue ensures d.arrival <= c.arrival {
            var f :| f in front && f.File? && f.op.SetChange? && f.op.change == d;
            var i :| 0 <= i < |front| && front[i] == f;
            assert es[i] == f && es[|es| - 1] == e;
          }
          AppendLast(if replace then WithoutKey(queue, c.key) else queue, c);
          assert e in es;
      }
    }
  }

  lemma AppendLast(queue: seq<Change>, c: Change)
    requires Ordered(queue) && forall d <- queue :: d.arrival <= c.arrival
    ensures Ordered(queue + [c])
  {
  }
}
