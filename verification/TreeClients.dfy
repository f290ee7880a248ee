/** Coalescing for a client that keeps what it collects in a Bag, where one path may lead
    through another. */
module TreeClients {
  import opened LegacyBag
  import opened GlobalPaths
  import opened Counting
  import opened Datachanges
  import opened Trees

  /** How a client reads paths and what the values it is sent hold. */
  datatype Reader = Reader(site: Site, content: int -> Tree)

  function PathOf(r: Reader, c: Change): (labels: seq<Label>)
    ensures labels != []
  {
    Labels(c.key.path, r.site)
  }

  /** What a set leaves behind; a fired one is emptied as soon as it was seen. */
  function Sent(r: Reader, c: Change): Tree {
    if c.key.fired then Leaf(Null) else r.content(c.value)
  }

  function Applied(r: Reader, t: Tree, c: Change): Tree {
    if c.delete then DelAt(t, PathOf(r, c)) else SetAt(t, PathOf(r, c), Sent(r, c))
  }

  function Taken(r: Reader, t: Tree, queue: seq<Change>): Tree {
    if queue == [] then t else Applied(r, Taken(r, t, queue[..|queue| - 1]), queue[|queue| - 1])
  }

  lemma TakenThen(r: Reader, t: Tree, q: seq<Change>, c: Change)
    ensures Taken(r, t, q + [c]) == Applied(r, Taken(r, t, q), c)
  {
    assert (q + [c])[..|q|] == q;
  }

  /* ---------------- what a later change makes up for ---------------- */

  /** The later change has the last word over the earlier one: a set always, a delete over
      deletes. */
  predicate HasLastWord(c: Change, earlier: Change) {
    !c.delete || earlier.delete
  }

  lemma LastWord(r: Reader, t: Tree, earlier: Change, c: Change)
    requires earlier.key.path == c.key.path && HasLastWord(c, earlier)
    ensures Applied(r, Applied(r, t, earlier), c) == Applied(r, t, c)
  {
    var p := PathOf(r, c);
    if c.delete {
      DelOverDel(t, p, p);
    } else if earlier.delete {
      SetOverDel(t, p, p, Sent(r, c));
    } else {
      SetOverSet(t, p, Sent(r, earlier), p, Sent(r, c));
    }
  }

  /** Two trees that a set makes equal stay such trees whatever change comes before it. */
  lemma AgreeBeforeSet(r: Reader, t: Tree, u: Tree, x: Change, p: seq<Label>, v: Tree)
    requires p != [] && SetAt(t, p, v) == SetAt(u, p, v)
    ensures SetAt(Applied(r, t, x), p, v) == SetAt(Applied(r, u, x), p, v)
  {
    var q, w := PathOf(r, x), Sent(r, x);
    if p <= q {
      if x.delete { SetOverDel(t, q, p, v); SetOverDel(u, q, p, v); }
      else { SetOverSet(t, q, w, p, v); SetOverSet(u, q, w, p, v); }
    } else if q <= p {
      var inner := SetAt(if x.delete then EMPTY else w, p[|q|..], v);
      SetOverSet(t, p, v, q, inner);
      SetOverSet(u, p, v, q, inner);
      if x.delete { SetInsideDel(t, q, p, v); SetInsideDel(u, q, p, v); }
      else { SetInsideSet(t, q, w, p, v); SetInsideSet(u, q, w, p, v); }
    } else {
      if x.delete { SetAndDelCommute(t, q, p, v); SetAndDelCommute(u, q, p, v); }
      else { SetsCommute(t, q, w, p, v); SetsCommute(u, q, w, p, v); }
    }
  }

  /** And so do two trees that a delete makes equal. */
  lemma AgreeBeforeDel(r: Reader, t: Tree, u: Tree, x: Change, p: seq<Label>)
    requires p != [] && DelAt(t, p) == DelAt(u, p)
    ensures DelAt(Applied(r, t, x), p) == DelAt(Applied(r, u, x), p)
  {
    var q, w := PathOf(r, x), Sent(r, x);
    if p <= q {
      if x.delete {
        DelOverDel(t, q, p);
        DelOverDel(u, q, p);
      } else {
        DelOverSet(t, q, w, p, EMPTY);
        DelOverSet(u, q, w, p, EMPTY);
        SetOverDel(t, p, p, EMPTY);
        SetOverDel(u, p, p, EMPTY);
      }
    } else if q <= p {
      if x.delete {
        DelInsideDel(t, q, p);
        DelInsideDel(u, q, p);
        DelOverDel(t, p, q);
        DelOverDel(u, p, q);
      } else {
        DelInsideSet(t, q, w, p);
        DelInsideSet(u, q, w, p);
        SetOverDel(t, p, q, DelAt(w, p[|q|..]));
        SetOverDel(u, p, q, DelAt(w, p[|q|..]));
      }
    } else if x.delete {
      DelsCommute(t, q, p);
      DelsCommute(u, q, p);
    } else {
      SetAndDelCommute(t, p, q, w);
      SetAndDelCommute(u, p, q, w);
    }
  }

  lemma AgreeBefore(r: Reader, t: Tree, u: Tree, x: Change, c: Change)
    requires Applied(r, t, c) == Applied(r, u, c)
    ensures Applied(r, Applied(r, t, x), c) == Applied(r, Applied(r, u, x), c)
  {
    if c.delete {
      AgreeBeforeDel(r, t, u, x, PathOf(r, c));
    } else {
      AgreeBeforeSet(r, t, u, x, PathOf(r, c), Sent(r, c));
    }
  }

  /** A replacing change has the last word over all that it replaces. */
  predicate LastWordIn(queue: seq<Change>, c: Change) {
    forall d <- queue :: d.key == c.key ==> HasLastWord(c, d)
  }

  lemma {:induction false} ReplacedAreMadeUpFor(r: Reader, t: Tree, queue: seq<Change>, c: Change)
    requires LastWordIn(queue, c)
    ensures Applied(r, Taken(r, t, queue), c) == Applied(r, Taken(r, t, Filter(queue, OffKey(c.key))), c)
  {
    if queue != [] {
      var front, x := queue[..|queue| - 1], queue[|queue| - 1];
      assert x in queue && forall d <- front :: d in queue;
      ReplacedAreMadeUpFor(r, t, front, c);
      if x.key == c.key {
        LastWord(r, Taken(r, t, front), x, c);
        assert Filter(queue, OffKey(c.key)) == Filter(front, OffKey(c.key));
      } else {
        AgreeBefore(r, Taken(r, t, front), Taken(r, t, Filter(front, OffKey(c.key))), x, c);
        TakenThen(r, t, Filter(front, OffKey(c.key)), x);
      }
    }
  }

  /* ---------------- whole runs ---------------- */

  /** A choice of keys. */
  type Keep = Key -> bool

  function Kept(keep: Keep): Change -> bool {
    (c: Change) => keep(c.key)
  }

  /** Whatever choice of keys is left of both, every client makes the same of them. */
  ghost predicate SameToTrees(r: Reader, q: seq<Change>, s: seq<Change>) {
    forall t, keep: Keep :: TakenAlike(r, t, q, s, keep)
  }

  predicate TakenAlike(r: Reader, t: Tree, q: seq<Change>, s: seq<Change>, keep: Keep) {
    Taken(r, t, Filter(q, Kept(keep))) == Taken(r, t, Filter(s, Kept(keep)))
  }

  lemma DroppingKeepsTrees(r: Reader, q: seq<Change>, s: seq<Change>, prefix: string)
    requires SameToTrees(r, q, s)
    ensures SameToTrees(r, WithoutPrefix(q, prefix), WithoutPrefix(s, prefix))
  {
    forall t, keep: Keep ensures TakenAlike(r, t, WithoutPrefix(q, prefix), WithoutPrefix(s, prefix), keep) {
      var both: Keep := (k: Key) => !Under(k.path, prefix) && keep(k);
      assert TakenAlike(r, t, q, s, both);
      WithoutPrefixPicks(q, prefix);
      WithoutPrefixPicks(s, prefix);
      FilterTwice(q, OffPrefix(prefix), Kept(keep), Kept(both));
      FilterTwice(s, OffPrefix(prefix), Kept(keep), Kept(both));
    }
  }

  lemma AppendingKeepsTrees(r: Reader, q: seq<Change>, s: seq<Change>, c: Change)
    requires SameToTrees(r, q, s)
    ensures SameToTrees(r, q + [c], s + [c])
  {
    forall t, keep: Keep ensures TakenAlike(r, t, q + [c], s + [c], keep) {
      assert TakenAlike(r, t, q, s, keep);
      AppendedAlike(r, t, q, s, c, keep);
    }
  }

  lemma AppendedAlike(r: Reader, t: Tree, q: seq<Change>, s: seq<Change>, c: Change, keep: Keep)
    requires keep(c.key) ==>
               Applied(r, Taken(r, t, Filter(q, Kept(keep))), c) == Applied(r, Taken(r, t, Filter(s, Kept(keep))), c)
    requires !keep(c.key) ==> TakenAlike(r, t, q, s, keep)
    ensures TakenAlike(r, t, q + [c], s + [c], keep)
  {
    AppendCounts(q, c, Kept(keep));
    AppendCounts(s, c, Kept(keep));
    if keep(c.key) {
      TakenThen(r, t, Filter(q, Kept(keep)), c);
      TakenThen(r, t, Filter(s, Kept(keep)), c);
    } else {
      assert Filter(q, Kept(keep)) + [] == Filter(q, Kept(keep));
      assert Filter(s, Kept(keep)) + [] == Filter(s, Kept(keep));
    }
  }

  /** What is replaced does not tell, whichever keys are left. */
  lemma ReplacedAlike(r: Reader, t: Tree, q: seq<Change>, c: Change, keep: Keep)
    requires LastWordIn(q, c)
    ensures keep(c.key) ==>
              Applied(r, Taken(r, t, Filter(Filter(q, OffKey(c.key)), Kept(keep))), c)
              == Applied(r, Taken(r, t, Filter(q, Kept(keep))), c)
    ensures !keep(c.key) ==> Filter(Filter(q, OffKey(c.key)), Kept(keep)) == Filter(q, Kept(keep))
  {
    var off, k := OffKey(c.key), Kept(keep);
    FilterTwice(q, off, k, (d: Change) => off(d) && k(d));
    FilterTwice(q, k, off, (d: Change) => off(d) && k(d));
    if keep(c.key) {
      FilterHas(q, k);
      ReplacedAreMadeUpFor(r, t, Filter(q, k), c);
    } else {
      FilterAgree(q, k, (d: Change) => off(d) && k(d));
    }
  }

  lemma ReplacingKeepsTrees(r: Reader, q: seq<Change>, s: seq<Change>, c: Change)
    requires SameToTrees(r, q, s) && LastWordIn(q, c)
    ensures SameToTrees(r, WithoutKey(q, c.key) + [c], s + [c])
  {
    WithoutKeyPicks(q, c.key);
    forall t, keep: Keep ensures TakenAlike(r, t, WithoutKey(q, c.key) + [c], s + [c], keep) {
      assert TakenAlike(r, t, q, s, keep);
      ReplacedAlike(r, t, q, c, keep);
      AppendedAlike(r, t, Filter(q, OffKey(c.key)), s, c, keep);
    }
  }

  /** The queue, and the tree of the client that collects it. */
  datatype TreeLine = TreeLine(queue: seq<Change>, tree: Tree)

  function Happens(r: Reader, line: TreeLine, e: Event): TreeLine {
    match e
    case File(op) => line.(queue := FileChange(line.queue, op))
    case Drain => TreeLine([], Taken(r, line.tree, line.queue))
    case Lose => line.(queue := [])
  }

  function HappensPlainly(r: Reader, line: TreeLine, e: Event): TreeLine {
    match e
    case File(op) => line.(queue := FilePlainly(line.queue, op))
    case _ => Happens(r, line, e)
  }

  function RunOf(r: Reader, t: Tree, es: seq<Event>): TreeLine {
    if es == [] then TreeLine([], t) else Happens(r, RunOf(r, t, es[..|es| - 1]), es[|es| - 1])
  }

  function PlainRunOf(r: Reader, t: Tree, es: seq<Event>): TreeLine {
    if es == [] then TreeLine([], t) else HappensPlainly(r, PlainRunOf(r, t, es[..|es| - 1]), es[|es| - 1])
  }

  /** The queue is the desk's, whatever keeps what is collected from it. */
  lemma {:induction false} QueueIsTheDesks(r: Reader, t: Tree, client: Client, es: seq<Event>)
    ensures RunOf(r, t, es).queue == AllHappen(Line([], client), es).queue
    ensures PlainRunOf(r, t, es).queue == AllHappenPlainly(Line([], client), es).queue
  {
    if es != [] {
      QueueIsTheDesks(r, t, client, es[..|es| - 1]);
    }
  }

  /** No replacing delete ever finds a set of its own key waiting. */
  predicate NoDeleteReplacesASet(r: Reader, t: Tree, es: seq<Event>) {
    es == [] ||
    var front, e := es[..|es| - 1], es[|es| - 1];
    && NoDeleteReplacesASet(r, t, front)
    && (e.File? && e.op.SetChange? && e.op.replace ==> LastWordIn(RunOf(r, t, front).queue, e.op.change))
  }

  lemma FilingKeepsTrees(r: Reader, q: seq<Change>, s: seq<Change>, op: Op)
    requires SameToTrees(r, q, s) && (op.SetChange? && op.replace ==> LastWordIn(q, op.change))
    ensures SameToTrees(r, FileChange(q, op), FilePlainly(s, op))
  {
    match op
    case Reset =>
    case DropPrefix(path) => DroppingKeepsTrees(r, q, s, path);
    case SetChange(c, replace) =>
      if replace { ReplacingKeepsTrees(r, q, s, c); } else { AppendingKeepsTrees(r, q, s, c); }
  }

  /** On every run in which no replacing delete finds a set of its own key waiting,
      coalescing changes nothing of the tree a client ends up with, paths that lead
      through one another included. */
  lemma {:induction false} CoalescingPreservesTrees(r: Reader, t: Tree, es: seq<Event>)
    requires NoDeleteReplacesASet(r, t, es)
    ensures var line, plain := RunOf(r, t, es), PlainRunOf(r, t, es);
            && line.tree == plain.tree
            && SameToTrees(r, line.queue, plain.queue)
            && Taken(r, line.tree, line.queue) == Taken(r, plain.tree, plain.queue)
  {
    if es != [] {
      var front, e := es[..|es| - 1], es[|es| - 1];
      CoalescingPreservesTrees(r, t, front);
      if e.File? {
        FilingKeepsTrees(r, RunOf(r, t, front).queue, PlainRunOf(r, t, front).queue, e.op);
      }
    }
    SameIsTakenAlike(r, RunOf(r, t, es).tree, RunOf(r, t, es).queue, PlainRunOf(r, t, es).queue);
  }

  lemma SameIsTakenAlike(r: Reader, t: Tree, q: seq<Change>, s: seq<Change>)
    requires SameToTrees(r, q, s)
    ensures Taken(r, t, q) == Taken(r, t, s)
  {
    assert TakenAlike(r, t, q, s, AllKeys());
    FilterAll(q);
    FilterAll(s);
  }

  function AllKeys(): Keep {
    (k: Key) => true
  }

  lemma {:induction false} FilterAll(q: seq<Change>)
    ensures Filter(q, Kept(AllKeys())) == q
  {
    if q != [] {
      FilterAll(q[..|q| - 1]);
    }
  }

  lemma OneMoreEvent(r: Reader, t: Tree, es: seq<Event>, e: Event)
    ensures RunOf(r, t, es + [e]) == Happens(r, RunOf(r, t, es), e)
    ensures PlainRunOf(r, t, es + [e]) == HappensPlainly(r, PlainRunOf(r, t, es), e)
  {
    assert (es + [e])[..|es|] == es;
  }

  /** What the client holds when a delete that replaces was filed last, and collected. */
  lemma CollectedAfterADelete(r: Reader, t: Tree, es: seq<Event>, d: Change)
    requires NoDeleteReplacesASet(r, t, es) && d.delete
    ensures var line, run := RunOf(r, t, es), es + [File(SetChange(d, true)), Drain];
            && RunOf(r, t, run).tree == DelAt(Taken(r, line.tree, WithoutKey(line.queue, d.key)), PathOf(r, d))
            && PlainRunOf(r, t, run).tree == DelAt(Taken(r, line.tree, line.queue), PathOf(r, d))
  {
    var filed, line, plain := File(SetChange(d, true)), RunOf(r, t, es), PlainRunOf(r, t, es);
    assert es + [filed, Drain] == (es + [filed]) + [Drain];
    OneMoreEvent(r, t, es, filed);
    OneMoreEvent(r, t, es + [filed], Drain);
    CoalescingPreservesTrees(r, t, es);
    TakenThen(r, line.tree, WithoutKey(line.queue, d.key), d);
    TakenThen(r, plain.tree, plain.queue, d);
  }

  /** The other runs can show, and when is exact. After any run in which coalescing does
      not, let a replacing delete come, whatever waits. The client that then collects ends
      the same exactly if the Bag above the path is there both with what the delete
      replaced and without, or if what it replaced made no difference at all. */
  lemma WhenADeleteShows(r: Reader, t: Tree, es: seq<Event>, d: Change)
    requires NoDeleteReplacesASet(r, t, es) && d.delete
    ensures var line, run, p := RunOf(r, t, es), es + [File(SetChange(d, true)), Drain], PathOf(r, d);
            var without, with := Taken(r, line.tree, WithoutKey(line.queue, d.key)), Taken(r, line.tree, line.queue);
            (RunOf(r, t, run).tree == PlainRunOf(r, t, run).tree) ==
            ((ParentThere(without, p) && ParentThere(with, p)) || without == with)
  {
    var line, set_ := RunOf(r, t, es), d.(delete := false);
    CollectedAfterADelete(r, t, es, d);
    ReplacedAreMadeUpFor(r, line.tree, line.queue, set_);
    WithoutKeyPicks(line.queue, d.key);
    DelsAgree(Taken(r, line.tree, WithoutKey(line.queue, d.key)), Taken(r, line.tree, line.queue),
              PathOf(r, d), Sent(r, set_));
  }

  /** In particular, where a delete replaces a set on an empty queue, exactly if the Bag
      above the path was there already: the set alone would have made it. */
  lemma ADeleteOverASetCanShow(r: Reader, t: Tree, c: Change, d: Change)
    requires d.key == c.key && !c.delete && d.delete
    ensures var run := [File(SetChange(c, true)), File(SetChange(d, true)), Drain];
            RunOf(r, t, run).tree == PlainRunOf(r, t, run).tree <==> ParentThere(t, PathOf(r, c))
  {
    var es, p := [File(SetChange(c, true))], PathOf(r, c);
    OneMoreEvent(r, t, [], es[0]);
    assert [] + [es[0]] == es && es[..0] == [] && [c][..0] == [] && [c][1..] == [];
    assert RunOf(r, t, es) == TreeLine([c], t);
    assert es + [File(SetChange(d, true)), Drain] == [File(SetChange(c, true)), File(SetChange(d, true)), Drain];
    WhenADeleteShows(r, t, es, d);
    var with := SetAt(t, p, Sent(r, c));
    assert Taken(r, t, [c]) == with && Taken(r, t, WithoutKey([c], d.key)) == t;
    DelUndoesSet(t, p, Sent(r, c));
    SetHasTheParent(t, p, Sent(r, c));
  }

  lemma {:induction false} SetHasTheParent(t: Tree, p: seq<Label>, v: Tree)
    requires p != []
    ensures ParentThere(SetAt(t, p, v), p)
    decreases |p|
  {
    if |p| > 1 {
      SetHasTheParent(Kid(t, p[0]), p[1..], v);
    }
  }
}
