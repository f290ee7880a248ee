/** The item locks under every interleaving of the threads that enter and leave stores. */
module ItemLockRuns {
  import opened ItemLocks

  /** A store remembers the thread that built it and locks with it, whoever enters. */
  datatype Store = Store(item: Item, builder: Thread)

  /** An entered store: `thread` runs the block, `builder` is the reason it locked with. */
  datatype Block = Block(thread: Thread, item: Item, builder: Thread)

  datatype Waiting = Waiting(store: Store, refusals: nat)

  datatype State = State(table: Table, blocks: seq<Block>, waiting: map<Thread, Waiting>, raised: seq<(Thread, Store)>)

  datatype Step =
    | Begin(thread: Thread, store: Store)
    | Attempt(thread: Thread)
    | Exit(k: nat)

  const IDLE := State(map[], [], map[], [])

  /** A thread between two attempts does nothing else; the blocks it runs end later. */
  predicate Enabled(s: State, step: Step) {
    match step
    case Begin(t, store) => t !in s.waiting && store.item.register != GLOBAL
    case Attempt(t) => t in s.waiting
    case Exit(k) => k < |s.blocks| && s.blocks[k].thread !in s.waiting
  }

  function Without(blocks: seq<Block>, k: nat): seq<Block>
    requires k < |blocks|
  {
    blocks[..k] + blocks[k + 1..]
  }

  function Next(s: State, step: Step): State
    requires Enabled(s, step)
  {
    match step
    case Begin(t, store) => s.(waiting := s.waiting[t := Waiting(store, 0)])
    case Attempt(t) =>
      var Waiting(store, refusals) := s.waiting[t];
      if Grantable(s.table, store.item, store.builder) then
        s.(table := Locked(s.table, store.item, store.builder), waiting := s.waiting - {t},
           blocks := s.blocks + [Block(t, store.item, store.builder)])
      else if refusals == LOCK_MAX_RETRY then
        s.(waiting := s.waiting - {t}, raised := s.raised + [(t, store)])
      else s.(waiting := s.waiting[t := Waiting(store, refusals + 1)])
    case Exit(k) => s.(table := Unlocked(s.table, s.blocks[k].item), blocks := Without(s.blocks, k))
  }

  predicate Feasible(s: State, steps: seq<Step>)
    decreases |steps|
  {
    steps == [] || (Enabled(s, steps[0]) && Feasible(Next(s, steps[0]), steps[1..]))
  }

  function After(s: State, steps: seq<Step>): State
    requires Feasible(s, steps)
    decreases |steps|
  {
    if steps == [] then s else After(Next(s, steps[0]), steps[1..])
  }

  /* ---------------- the table tells the open blocks ---------------- */

  function OpenOn(blocks: seq<Block>, item: Item): nat {
    if blocks == [] then 0
    else OpenOn(blocks[..|blocks| - 1], item) + if blocks[|blocks| - 1].item == item then 1 else 0
  }

  lemma {:induction false} OpenOnParts(a: seq<Block>, b: seq<Block>, item: Item)
    ensures OpenOn(a + b, item) == OpenOn(a, item) + OpenOn(b, item)
  {
    if b == [] {
      assert a + b == a;
    } else {
      assert (a + b)[..|a + b| - 1] == a + b[..|b| - 1];
      OpenOnParts(a, b[..|b| - 1], item);
    }
  }

  lemma OpenOnWithout(blocks: seq<Block>, k: nat, item: Item)
    requires k < |blocks|
    ensures OpenOn(Without(blocks, k), item) == OpenOn(blocks, item) - if blocks[k].item == item then 1 else 0
  {
    assert blocks == blocks[..k] + [blocks[k]] + blocks[k + 1..];
    OpenOnParts(blocks[..k] + [blocks[k]], blocks[k + 1..], item);
    OpenOnParts(blocks[..k], [blocks[k]], item);
    OpenOnParts(blocks[..k], blocks[k + 1..], item);
    assert [blocks[k]][..0] == [];
  }

  lemma {:induction false} SomeOpen(blocks: seq<Block>, item: Item)
    ensures OpenOn(blocks, item) > 0 <==> exists b :: b in blocks && b.item == item
  {
    if blocks != [] {
      SomeOpen(blocks[..|blocks| - 1], item);
      assert forall b :: b in blocks <==> b in blocks[..|blocks| - 1] || b == blocks[|blocks| - 1];
    }
  }

  predicate EntryTells(s: State, item: Item) {
    if item in s.table then
      && s.table[item].count == OpenOn(s.blocks, item) > 0
      && forall b <- s.blocks :: b.item == item ==> b.builder == s.table[item].reason
    else OpenOn(s.blocks, item) == 0
  }

  ghost predicate TableTells(s: State) {
    && (forall item :: EntryTells(s, item))
    && (forall item <- s.table :: item.register != GLOBAL)
    && (forall t <- s.waiting :: s.waiting[t].store.item.register != GLOBAL && s.waiting[t].refusals <= LOCK_MAX_RETRY)
    && (forall b <- s.blocks :: b.item.register != GLOBAL)
  }

  lemma GrantKeepsEntry(s: State, b: Block, item: Item, s': State)
    requires EntryTells(s, item) && b.item.register != GLOBAL && Grantable(s.table, b.item, b.builder)
    requires s'.table == Locked(s.table, b.item, b.builder) && s'.blocks == s.blocks + [b]
    ensures EntryTells(s', item)
  {
    assert s'.blocks[..|s.blocks|] == s.blocks;
    SomeOpen(s.blocks, item);
  }

  lemma ExitKeepsEntry(s: State, k: nat, item: Item, s': State)
    requires k < |s.blocks| && EntryTells(s, item) && s.blocks[k].item.register != GLOBAL
    requires s'.table == Unlocked(s.table, s.blocks[k].item) && s'.blocks == Without(s.blocks, k)
    ensures EntryTells(s', item)
  {
    OpenOnWithout(s.blocks, k, item);
    SomeOpen(s.blocks, item);
    assert forall b <- s'.blocks :: b in s.blocks;
  }

  lemma StepKeepsTable(s: State, step: Step, s': State)
    requires TableTells(s) && Enabled(s, step) && s' == Next(s, step)
    ensures TableTells(s')
  {
    match step
    case Begin(t, store) =>
      forall item ensures EntryTells(s', item) { assert EntryTells(s, item); }
    case Attempt(t) =>
      var Waiting(store, _) := s.waiting[t];
      forall item ensures EntryTells(s', item) {
        assert EntryTells(s, item);
        if Grantable(s.table, store.item, store.builder) {
          GrantKeepsEntry(s, Block(t, store.item, store.builder), item, s');
        }
      }
    case Exit(k) =>
      forall item ensures EntryTells(s', item) {
        ExitKeepsEntry(s, k, item, s');
      }
      assert forall b <- s'.blocks :: b in s.blocks;
  }

  lemma {:induction false} RunKeepsTable(s: State, steps: seq<Step>)
    requires TableTells(s) && Feasible(s, steps)
    ensures TableTells(After(s, steps))
    decreases |steps|
  {
    if steps != [] {
      StepKeepsTable(s, steps[0], Next(s, steps[0]));
      RunKeepsTable(Next(s, steps[0]), steps[1..]);
    }
  }

  /** Over all interleavings, an item has no entry exactly while no block on it is open;
      otherwise its count is the number of open blocks, every one of which locked with
      the reason on record. So an exit always undoes a lock of its own reason, although
      unlocking never looks. */
  lemma EntryIsTheOpenBlocks(steps: seq<Step>, item: Item)
    requires Feasible(IDLE, steps)
    ensures var s := After(IDLE, steps);
            && (item !in s.table <==> forall b <- s.blocks :: b.item != item)
            && (item in s.table ==>
                  && s.table[item].count == OpenOn(s.blocks, item)
                  && forall b <- s.blocks :: b.item == item ==> b.builder == s.table[item].reason)
  {
    RunKeepsTable(IDLE, steps);
    var s := After(IDLE, steps);
    assert EntryTells(s, item);
    SomeOpen(s.blocks, item);
  }

  /* ---------------- exclusion ---------------- */

  /** No item has open blocks of two threads. */
  predicate Exclusive(s: State) {
    forall b, c :: b in s.blocks && c in s.blocks && b.item == c.item ==> b.thread == c.thread
  }

  /** Which thread may enter stores built by which thread. */
  type Practice = set<(Thread, Thread)>

  predicate Follows(steps: seq<Step>, practice: Practice) {
    forall step <- steps :: step.Begin? ==> (step.thread, step.store.builder) in practice
  }

  /** No two threads enter stores of one builder. */
  predicate OneThreadPerBuilder(practice: Practice) {
    forall p, q :: p in practice && q in practice && p.1 == q.1 ==> p.0 == q.0
  }

  predicate Practised(s: State, practice: Practice) {
    && (forall b <- s.blocks :: (b.thread, b.builder) in practice)
    && (forall t <- s.waiting :: (t, s.waiting[t].store.builder) in practice)
  }

  lemma {:induction false} RunKeepsPractice(s: State, steps: seq<Step>, practice: Practice)
    requires Practised(s, practice) && Feasible(s, steps) && Follows(steps, practice)
    ensures Practised(After(s, steps), practice)
    decreases |steps|
  {
    if steps != [] {
      var s' := Next(s, steps[0]);
      assert steps[0] in steps;
      if steps[0].Exit? {
        assert forall b <- s'.blocks :: b in s.blocks;
      }
      assert Practised(s', practice);
      RunKeepsPractice(s', steps[1..], practice);
    }
  }

  lemma PracticeExcludes(steps: seq<Step>, practice: Practice)
    requires OneThreadPerBuilder(practice) && Feasible(IDLE, steps) && Follows(steps, practice)
    ensures Exclusive(After(IDLE, steps))
  {
    RunKeepsTable(IDLE, steps);
    RunKeepsPractice(IDLE, steps, practice);
    var s := After(IDLE, steps);
    forall b, c | b in s.blocks && c in s.blocks && b.item == c.item ensures b.thread == c.thread {
      assert EntryTells(s, b.item);
      SomeOpen(s.blocks, b.item);
      assert (b.thread, b.builder) in practice && (c.thread, c.builder) in practice;
      assert (b.thread, b.builder).1 == (c.thread, c.builder).1;
    }
  }

  /** Two threads that enter stores of one builder are inside together, the second
      without being made to wait. */
  lemma SharedBuilderLetsBothIn(item: Item, t: Thread, u: Thread, builder: Thread)
    requires item.register != GLOBAL && t != u
    ensures var store := Store(item, builder);
            var steps := [Begin(t, store), Attempt(t), Begin(u, store), Attempt(u)];
            && Feasible(IDLE, steps)
            && After(IDLE, steps).blocks == [Block(t, item, builder), Block(u, item, builder)]
  {
    var store := Store(item, builder);
    var s1 := Next(IDLE, Begin(t, store));
    var s2 := Next(s1, Attempt(t));
    assert s2 == State(map[item := Hold(builder, 1)], [Block(t, item, builder)], map[], []);
    var s3 := Next(s2, Begin(u, store));
    var s4 := Next(s3, Attempt(u));
    assert s4.blocks == [Block(t, item, builder), Block(u, item, builder)];
    FourSteps(IDLE, Begin(t, store), Attempt(t), Begin(u, store), Attempt(u));
  }

  lemma StepThenRest(s: State, step: Step, rest: seq<Step>)
    requires Enabled(s, step) && Feasible(Next(s, step), rest)
    ensures Feasible(s, [step] + rest) && After(s, [step] + rest) == After(Next(s, step), rest)
  {
    assert ([step] + rest)[1..] == rest;
  }

  lemma FourSteps(s: State, a: Step, b: Step, c: Step, d: Step)
    requires Enabled(s, a) && Enabled(Next(s, a), b) && Enabled(Next(Next(s, a), b), c)
    requires Enabled(Next(Next(Next(s, a), b), c), d)
    ensures Feasible(s, [a, b, c, d])
    ensures After(s, [a, b, c, d]) == Next(Next(Next(Next(s, a), b), c), d)
  {
    var s1, s2, s3 := Next(s, a), Next(Next(s, a), b), Next(Next(Next(s, a), b), c);
    StepThenRest(s3, d, []);
    StepThenRest(s2, c, [d]);
    StepThenRest(s1, b, [c] + [d]);
    StepThenRest(s, a, [b] + ([c] + [d]));
    assert [a] + ([b] + ([c] + [d])) == [a, b, c, d] && [d] + [] == [d];
  }

  /** The lock excludes threads from one another on every run of a practice exactly when
      no two threads enter stores of one builder: the reason is the thread that built
      the store, not the one that enters it. Entering only stores of one's own is such
      a practice. */
  lemma ExclusionNeedsOwnStores(practice: Practice)
    ensures (forall steps :: Feasible(IDLE, steps) && Follows(steps, practice) ==> Exclusive(After(IDLE, steps)))
       <==> OneThreadPerBuilder(practice)
    ensures (forall p :: p in practice ==> p.0 == p.1) ==> OneThreadPerBuilder(practice)
  {
    if OneThreadPerBuilder(practice) {
      forall steps | Feasible(IDLE, steps) && Follows(steps, practice) ensures Exclusive(After(IDLE, steps)) {
        PracticeExcludes(steps, practice);
      }
    } else {
      var p, q :| p in practice && q in practice && p.1 == q.1 && p.0 != q.0;
      var store := Store(Item("page", "p"), p.1);
      var steps := [Begin(p.0, store), Attempt(p.0), Begin(q.0, store), Attempt(q.0)];
      SharedBuilderLetsBothIn(store.item, p.0, q.0, p.1);
      var s := After(IDLE, steps);
      assert s.blocks[0] in s.blocks && s.blocks[1] in s.blocks;
      assert Follows(steps, practice) && !Exclusive(s);
    }
  }

  /* ---------------- the one wait that cannot end well ---------------- */

  /** The thread waits, with this many refusals behind it, for an item that a block of
      its own keeps locked for another reason. */
  predicate WaitsForItself(s: State, t: Thread, store: Store, mine: Block) {
    && t in s.waiting && s.waiting[t].store == store
    && mine in s.blocks && mine.thread == t && mine.item == store.item && mine.builder != store.builder
  }

  lemma StepKeepsSelfWait(s: State, step: Step, t: Thread, store: Store, mine: Block)
    requires TableTells(s) && WaitsForItself(s, t, store, mine) && Enabled(s, step)
    ensures WaitsForItself(Next(s, step), t, store, mine) ||
            (step == Attempt(t) && Next(s, step).raised == s.raised + [(t, store)])
    ensures WaitsForItself(Next(s, step), t, store, mine) ==>
              Next(s, step).waiting[t].refusals == s.waiting[t].refusals + if step == Attempt(t) then 1 else 0
  {
    assert EntryTells(s, store.item);
    SomeOpen(s.blocks, store.item);
    if step.Exit? {
      var j :| 0 <= j < |s.blocks| && s.blocks[j] == mine;
      var rest := Without(s.blocks, step.k);
      assert rest[if j < step.k then j else j - 1] == mine;
    }
  }

  function AttemptsOf(steps: seq<Step>, t: Thread): nat {
    if steps == [] then 0 else (if steps[0] == Attempt(t) then 1 else 0) + AttemptsOf(steps[1..], t)
  }

  /** A thread that holds an item through one store and enters it through a store built
      elsewhere is never let in, whatever the others do: it waits through all its
      attempts, and the last of them raises. */
  lemma {:induction false} NeverLetInByItself(s: State, steps: seq<Step>, t: Thread, store: Store, mine: Block)
    requires TableTells(s) && WaitsForItself(s, t, store, mine) && Feasible(s, steps)
    ensures if s.waiting[t].refusals + AttemptsOf(steps, t) <= LOCK_MAX_RETRY
            then WaitsForItself(After(s, steps), t, store, mine)
            else (t, store) in After(s, steps).raised
    decreases |steps|
  {
    if steps != [] {
      var s' := Next(s, steps[0]);
      StepKeepsSelfWait(s, steps[0], t, store, mine);
      StepKeepsTable(s, steps[0], s');
      if WaitsForItself(s', t, store, mine) {
        NeverLetInByItself(s', steps[1..], t, store, mine);
      } else {
        RaisedStays(s', steps[1..], (t, store));
      }
    }
  }

  /** From the moment it begins to enter it goes through all of its 51 attempts: while
      there were fewer it still waits, and the last one raises. */
  lemma FiftyOneAttempts(s: State, steps: seq<Step>, t: Thread, store: Store, mine: Block)
    requires TableTells(s) && mine in s.blocks && mine.thread == t && mine.item == store.item && mine.builder != store.builder
    requires Feasible(s, [Begin(t, store)] + steps)
    ensures var after := After(s, [Begin(t, store)] + steps);
            && (AttemptsOf(steps, t) < 51 ==> t in after.waiting && after.waiting[t].store == store)
            && (AttemptsOf(steps, t) >= 51 ==> (t, store) in after.raised)
  {
    assert ([Begin(t, store)] + steps)[1..] == steps;
    var s' := Next(s, Begin(t, store));
    StepKeepsTable(s, Begin(t, store), s');
    NeverLetInByItself(s', steps, t, store, mine);
  }

  lemma {:induction false} RaisedStays(s: State, steps: seq<Step>, r: (Thread, Store))
    requires Feasible(s, steps) && r in s.raised
    ensures r in After(s, steps).raised
    decreases |steps|
  {
    if steps != [] {
      RaisedStays(Next(s, steps[0]), steps[1..], r);
    }
  }
}
