/** Coalescing for the clients themselves, which apply what they collect to a Bag. */
module BagClients {
  import opened Wrappers
  import opened LegacyBag
  import opened GlobalPaths
  import opened Datachanges
  import opened Trees
  import opened TreeClients

  /** How the receiver reads paths, and what it is sent for each value. */
  datatype Receiver = Receiver(site: Site, content: int -> Value)

  /** What is sent wears no label twice. */
  ghost predicate Tidy(s: Receiver) {
    forall n :: Neat(s.content(n))
  }

  function ReaderOf(s: Receiver): Reader {
    Reader(s.site, n => TreeOf(s.content(n)))
  }

  /** A delete pops the path; a fired change is emptied as soon as it was seen. */
  function BagApplied(s: Receiver, nodes: seq<Node>, c: Change): seq<Node> {
    var labels := Labels(c.key.path, s.site);
    if c.delete then DelItem(nodes, labels)
    else SetItem(nodes, labels, if c.key.fired then Null else s.content(c.value))
  }

  function BagTaken(s: Receiver, nodes: seq<Node>, queue: seq<Change>): seq<Node> {
    if queue == [] then nodes
    else BagApplied(s, BagTaken(s, nodes, queue[..|queue| - 1]), queue[|queue| - 1])
  }

  lemma BagChangesAsItsTree(s: Receiver, nodes: seq<Node>, c: Change)
    requires Tidy(s) && Neat(Bag(nodes))
    ensures Neat(Bag(BagApplied(s, nodes, c)))
    ensures TreeOf(Bag(BagApplied(s, nodes, c))) == Applied(ReaderOf(s), TreeOf(Bag(nodes)), c)
  {
    var labels := Labels(c.key.path, s.site);
    if c.delete {
      DelKeepsNeat(nodes, labels);
      NeatIsWornOnce(nodes, labels);
      TreeOfDel(nodes, labels);
    } else {
      var given := if c.key.fired then Null else s.content(c.value);
      SetKeepsNeat(nodes, labels, given);
      TreeOfSet(nodes, labels, given);
    }
  }

  /** What a whole queue makes of a Bag is what it makes of the Bag's tree, and labels stay
      worn once. */
  lemma {:induction false} BagIsItsTree(s: Receiver, nodes: seq<Node>, queue: seq<Change>)
    requires Tidy(s) && Neat(Bag(nodes))
    ensures Neat(Bag(BagTaken(s, nodes, queue)))
    ensures TreeOf(Bag(BagTaken(s, nodes, queue))) == Taken(ReaderOf(s), TreeOf(Bag(nodes)), queue)
  {
    if queue != [] {
      var front := queue[..|queue| - 1];
      BagIsItsTree(s, nodes, front);
      BagChangesAsItsTree(s, BagTaken(s, nodes, front), queue[|queue| - 1]);
    }
  }

  lemma FoundAfterSet(nodes: seq<Node>, path: seq<Label>, v: Value)
    requires path != []
    ensures Find(SetItem(nodes, path, v), path) == Some(v)
  {
    SetChangesNothing(SetItem(nodes, path, v), path, v);
    GetAfterSet(nodes, path, v, Null);
    GetAfterSet(nodes, path, v, Scalar(0));
    GetIsFind(SetItem(nodes, path, v), path, Null);
    GetIsFind(SetItem(nodes, path, v), path, Scalar(0));
  }

  lemma RemovedIsGone(nodes: seq<Node>, l: Label, i: nat)
    requires i == IndexOf(nodes, l) < |nodes| && forall j :: i < j < |nodes| ==> nodes[j].name != l
    ensures var after := nodes[..i] + nodes[i + 1..]; IndexOf(after, l) == |after|
  {
    var after := nodes[..i] + nodes[i + 1..];
    forall j | 0 <= j < |after| ensures after[j].name != l {
      assert after[j] == nodes[if j < i then j else j + 1];
    }
    IndexOfUnique(after, l, |after|);
  }

  lemma {:induction false} GoneAfterDel(nodes: seq<Node>, path: seq<Label>)
    requires path != [] && WornOnce(nodes, path)
    ensures Find(DelItem(nodes, path), path) == None
    decreases |path|
  {
    var i := IndexOf(nodes, path[0]);
    if i < |nodes| {
      if |path| == 1 {
        RemovedIsGone(nodes, path[0], i);
      } else if nodes[i].value.Bag? {
        GoneAfterDel(nodes[i].value.nodes, path[1..]);
        IndexOfUnique(DelItem(nodes, path), path[0], i);
      }
    }
  }

  /** The last change of a queue is what the client then reads at its path: nothing after
      a delete, an emptied place after a fired change, and what was sent after any other. */
  lemma LastChangeIsRead(s: Receiver, nodes: seq<Node>, queue: seq<Change>, c: Change)
    requires Tidy(s) && Neat(Bag(nodes))
    ensures Find(BagTaken(s, nodes, queue + [c]), Labels(c.key.path, s.site))
         == if c.delete then None else if c.key.fired then Some(Null) else Some(s.content(c.value))
  {
    var before, labels := BagTaken(s, nodes, queue), Labels(c.key.path, s.site);
    assert (queue + [c])[..|queue|] == queue;
    BagIsItsTree(s, nodes, queue);
    NeatIsWornOnce(before, labels);
    if c.delete {
      GoneAfterDel(before, labels);
    } else {
      FoundAfterSet(before, labels, if c.key.fired then Null else s.content(c.value));
    }
  }

  /* ---------------- whole runs ---------------- */

  /** The queue, and the Bag of the client that collects it. */
  datatype BagLine = BagLine(queue: seq<Change>, nodes: seq<Node>)

  function BagHappens(s: Receiver, line: BagLine, e: Event): BagLine {
    match e
    case File(op) => line.(queue := FileChange(line.queue, op))
    case Drain => BagLine([], BagTaken(s, line.nodes, line.queue))
    case Lose => line.(queue := [])
  }

  function BagHappensPlainly(s: Receiver, line: BagLine, e: Event): BagLine {
    match e
    case File(op) => line.(queue := FilePlainly(line.queue, op))
    case _ => BagHappens(s, line, e)
  }

  function BagRun(s: Receiver, nodes: seq<Node>, es: seq<Event>): BagLine {
    if es == [] then BagLine([], nodes) else BagHappens(s, BagRun(s, nodes, es[..|es| - 1]), es[|es| - 1])
  }

  function PlainBagRun(s: Receiver, nodes: seq<Node>, es: seq<Event>): BagLine {
    if es == [] then BagLine([], nodes)
    else BagHappensPlainly(s, PlainBagRun(s, nodes, es[..|es| - 1]), es[|es| - 1])
  }

  /** The tree line is the Bag line, seen by its trees. */
  ghost predicate SeenAs(line: BagLine, tree: TreeLine) {
    line.queue == tree.queue && Neat(Bag(line.nodes)) && TreeOf(Bag(line.nodes)) == tree.tree
  }

  lemma {:induction false} RunsAreSeen(s: Receiver, nodes: seq<Node>, es: seq<Event>)
    requires Tidy(s) && Neat(Bag(nodes))
    ensures SeenAs(BagRun(s, nodes, es), RunOf(ReaderOf(s), TreeOf(Bag(nodes)), es))
    ensures SeenAs(PlainBagRun(s, nodes, es), PlainRunOf(ReaderOf(s), TreeOf(Bag(nodes)), es))
  {
    if es != [] {
      var front := es[..|es| - 1];
      RunsAreSeen(s, nodes, front);
      if es[|es| - 1].Drain? {
        var line, plain := BagRun(s, nodes, front), PlainBagRun(s, nodes, front);
        BagIsItsTree(s, line.nodes, line.queue);
        BagIsItsTree(s, plain.nodes, plain.queue);
      }
    }
  }

  /** No read of either Bag tells them apart, but for the order of nodes in a Bag it answers. */
  ghost predicate ReadAlikeThroughout(nodes: seq<Node>, others: seq<Node>) {
    forall path: seq<Label> :: path != [] ==> FoundAlike(Find(nodes, path), Find(others, path))
  }

  predicate FoundAlike(a: Option<Value>, b: Option<Value>) {
    match (a, b)
    case (Some(v), Some(w)) => TreeOf(v) == TreeOf(w)
    case (None, None) => true
    case _ => false
  }

  lemma OneTreeIsReadAlike(nodes: seq<Node>, others: seq<Node>)
    requires TreeOf(Bag(nodes)) == TreeOf(Bag(others))
    ensures ReadAlikeThroughout(nodes, others)
  {
    forall path: seq<Label> | path != [] ensures FoundAlike(Find(nodes, path), Find(others, path)) {
      OneTreeReadsAlike(nodes, others, path);
    }
  }

  /** On every run in which no replacing delete finds a set of its own key waiting, the
      client's Bag is the one an uncoalescing desk would have left it, up to the order of
      nodes, and every read of it is answered alike. */
  lemma CoalescingPreservesBags(s: Receiver, nodes: seq<Node>, es: seq<Event>)
    requires Tidy(s) && Neat(Bag(nodes)) && NoDeleteReplacesASet(ReaderOf(s), TreeOf(Bag(nodes)), es)
    ensures TreeOf(Bag(BagRun(s, nodes, es).nodes)) == TreeOf(Bag(PlainBagRun(s, nodes, es).nodes))
    ensures ReadAlikeThroughout(BagRun(s, nodes, es).nodes, PlainBagRun(s, nodes, es).nodes)
  {
    RunsAreSeen(s, nodes, es);
    CoalescingPreservesTrees(ReaderOf(s), TreeOf(Bag(nodes)), es);
    OneTreeIsReadAlike(BagRun(s, nodes, es).nodes, PlainBagRun(s, nodes, es).nodes);
  }

  /** The Bag above the path, in the Bag itself. */
  predicate ParentIsABag(nodes: seq<Node>, path: seq<Label>)
    requires path != []
  {
    |path| == 1 || (Find(nodes, path[..|path| - 1]).Some? && Find(nodes, path[..|path| - 1]).value.Bag?)
  }

  lemma {:induction false} ParentInTheTree(nodes: seq<Node>, path: seq<Label>)
    requires path != []
    ensures ParentThere(TreeOf(Bag(nodes)), path) <==> ParentIsABag(nodes, path)
    decreases |path|
  {
    if |path| > 1 {
      KidsOf(nodes, path[0]);
      var i := IndexOf(nodes, path[0]);
      if i < |nodes| && nodes[i].value.Bag? {
        ParentInTheTree(nodes[i].value.nodes, path[1..]);
        assert path[1..][..|path[1..]| - 1] == path[..|path| - 1][1..];
      }
    }
  }

  /** And where a replacing delete comes last, whatever waits, the two Bags are one up to
      order exactly if both with what it replaced and without there is a Bag above the
      path, or if those two are one already. */
  lemma WhenADeleteShowsInABag(s: Receiver, nodes: seq<Node>, es: seq<Event>, d: Change)
    requires Tidy(s) && Neat(Bag(nodes)) && NoDeleteReplacesASet(ReaderOf(s), TreeOf(Bag(nodes)), es) && d.delete
    ensures var line, run, p := BagRun(s, nodes, es), es + [File(SetChange(d, true)), Drain], Labels(d.key.path, s.site);
            var without, with := BagTaken(s, line.nodes, WithoutKey(line.queue, d.key)), BagTaken(s, line.nodes, line.queue);
            (TreeOf(Bag(BagRun(s, nodes, run).nodes)) == TreeOf(Bag(PlainBagRun(s, nodes, run).nodes))) ==
            ((ParentIsABag(without, p) && ParentIsABag(with, p)) || TreeOf(Bag(without)) == TreeOf(Bag(with)))
  {
    var line, p := BagRun(s, nodes, es), Labels(d.key.path, s.site);
    RunsAreSeen(s, nodes, es);
    RunsAreSeen(s, nodes, es + [File(SetChange(d, true)), Drain]);
    WhenADeleteShows(ReaderOf(s), TreeOf(Bag(nodes)), es, d);
    BagIsItsTree(s, line.nodes, WithoutKey(line.queue, d.key));
    BagIsItsTree(s, line.nodes, line.queue);
    ParentInTheTree(BagTaken(s, line.nodes, WithoutKey(line.queue, d.key)), p);
    ParentInTheTree(BagTaken(s, line.nodes, line.queue), p);
  }
}
