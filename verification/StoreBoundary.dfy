/** The two sides of a register store over whole runs: the site, which mutates what it
    was given and what it gave, and the store, which hands out and keeps copies. */
module StoreBoundary {
  import opened Wrappers
  import opened StoreCopies

  /** `site` and `store` are the objects each side can get at. */
  datatype World = World(heap: Heap, site: set<Ref>, store: set<Ref>)

  /** `depth` bounds the value that crosses; any bound that fits does. */
  datatype Step =
    | SiteMakes(cell: Cell)
    | SiteWrites(ref: Ref, cell: Cell)
    | StoreWrites(ref: Ref, cell: Cell)
    | GetItem(bag: Ref, name: string, depth: nat)
    | SetItem(bag: Ref, name: string, value: Val, attributes: seq<Val>, depth: nat)

  function IndexOf(labels: seq<string>, name: string): (i: nat)
    ensures i <= |labels|
    ensures i < |labels| ==> labels[i] == name
    ensures forall j :: 0 <= j < i ==> labels[j] != name
  {
    if labels == [] || labels[0] == name then 0 else 1 + IndexOf(labels[1..], name)
  }

  predicate IsBag(h: Heap, bag: Ref) {
    bag < |h| && h[bag].kind == Bag && |h[bag].labels| == |h[bag].values| == |h[bag].attributes|
  }

  /** The Bag with this value and these attributes at the name, in place or as a new node. */
  function WithNode(c: Cell, name: string, v: Val, attributes: Val): Cell
    requires |c.labels| == |c.values| == |c.attributes|
  {
    var i := IndexOf(c.labels, name);
    if i < |c.labels| then c.(values := c.values[i := v], attributes := c.attributes[i := attributes])
    else c.(labels := c.labels + [name], values := c.values + [v], attributes := c.attributes + [attributes])
  }

  function ValueAt(h: Heap, bag: Ref, name: string): Option<Val>
    requires IsBag(h, bag)
  {
    var i := IndexOf(h[bag].labels, name);
    if i < |h[bag].labels| then Some(h[bag].values[i]) else None
  }

  function AttributesAt(h: Heap, bag: Ref, name: string): Option<Val>
    requires IsBag(h, bag)
  {
    var i := IndexOf(h[bag].labels, name);
    if i < |h[bag].labels| then Some(h[bag].attributes[i]) else None
  }

  /** The objects a value names itself. */
  function Refs(v: Val): set<Ref>
    decreases v, 1
  {
    match v
    case Leaf(_) => {}
    case Frozen(items) => AllRefs(items)
    case Obj(r) => {r}
  }

  function AllRefs(vs: seq<Val>): set<Ref>
    decreases vs, 0
  {
    if vs == [] then {} else Refs(vs[0]) + AllRefs(vs[1..])
  }

  function CellRefs(c: Cell): set<Ref> {
    AllRefs(c.values) + AllRefs(c.attributes)
  }

  predicate Enabled(w: World, step: Step) {
    match step
    case SiteMakes(cell) => CellRefs(cell) <= w.site
    case SiteWrites(r, cell) => r in w.site && r < |w.heap| && CellRefs(cell) <= w.site
    case StoreWrites(r, cell) => r in w.store && r < |w.heap| && CellRefs(cell) <= w.store
    case GetItem(bag, name, n) =>
      && bag in w.store && IsBag(w.heap, bag)
      && (match ValueAt(w.heap, bag, name) case Some(v) => Whole(w.heap, v, n) case None => true)
    case SetItem(bag, name, v, attributes, n) =>
      && bag in w.store && IsBag(w.heap, bag)
      && Refs(v) <= w.site && Whole(w.heap, v, n)
      && AllRefs(attributes) <= w.site && AllWhole(w.heap, attributes, n)
  }

  /** What the caller of `GetItem` receives: nothing when the name is not there. */
  function Received(w: World, bag: Ref, name: string, n: nat): (Heap, Option<Val>)
    requires Enabled(w, GetItem(bag, name, n))
  {
    match ValueAt(w.heap, bag, name)
    case None => (w.heap, None)
    case Some(v) => var (h', v') := Copied(w.heap, w.heap, v, n, false); (h', Some(v'))
  }

  /** A write keeps a copy of the value, and the attributes as they come. */
  function Next(w: World, step: Step): World
    requires Enabled(w, step)
  {
    match step
    case SiteMakes(cell) => World(w.heap + [cell], w.site + {|w.heap|}, w.store)
    case SiteWrites(r, cell) => w.(heap := w.heap[r := cell])
    case StoreWrites(r, cell) => w.(heap := w.heap[r := cell])
    case GetItem(bag, name, n) =>
      var (h', v') := Received(w, bag, name, n);
      World(h', w.site + (if v'.Some? then Reach(h', v'.value, n) else {}), w.store)
    case SetItem(bag, name, v, attributes, n) =>
      var (h', v') := Copied(w.heap, w.heap, v, n, false);
      World(if bag < |h'| then h'[bag := WithNode(w.heap[bag], name, v', Frozen(attributes))] else h',
            w.site, w.store + Reach(h', v', n) + ReachAll(w.heap, attributes, n))
  }

  /** The value that crosses leads to no mutable object through frozen values or
      attributes, nor do the attributes given with it. */
  predicate Clean(w: World, step: Step)
    requires Enabled(w, step)
  {
    match step
    case GetItem(bag, name, n) =>
      (match ValueAt(w.heap, bag, name) case Some(v) => Exposed(w.heap, v, n, false) == {} case None => true)
    case SetItem(_, _, v, attributes, n) =>
      Exposed(w.heap, v, n, false) == {} && ReachAll(w.heap, attributes, n) == {}
    case _ => true
  }

  /* ---------------- the two sides stay apart ---------------- */

  predicate Within(h: Heap, refs: set<Ref>, r: Ref) {
    r < |h| && CellRefs(h[r]) <= refs
  }

  predicate Closed(h: Heap, refs: set<Ref>) {
    forall r <- refs :: Within(h, refs, r)
  }

  ghost predicate Sides(w: World) {
    Closed(w.heap, w.site) && Closed(w.heap, w.store)
  }

  predicate Apart(w: World) {
    w.site !! w.store
  }

  lemma {:induction false} ClosedHolds(h: Heap, refs: set<Ref>, v: Val, n: nat)
    requires Closed(h, refs) && Refs(v) <= refs
    ensures Reach(h, v, n) <= refs
    decreases n, v, 1
  {
    match v
    case Leaf(_) =>
    case Frozen(items) => ClosedHoldsAll(h, refs, items, n);
    case Obj(r) =>
      ClosedAt(h, refs, r);
      if n > 0 {
        ClosedHoldsAll(h, refs, h[r].values, n - 1);
        ClosedHoldsAll(h, refs, h[r].attributes, n - 1);
      }
  }

  lemma ClosedAt(h: Heap, refs: set<Ref>, r: Ref)
    requires Closed(h, refs) && r in Refs(Obj(r)) && Refs(Obj(r)) <= refs
    ensures r in refs && r < |h| && AllRefs(h[r].values) <= refs && AllRefs(h[r].attributes) <= refs
  {
    assert Within(h, refs, r);
  }

  lemma {:induction false} ClosedHoldsAll(h: Heap, refs: set<Ref>, vs: seq<Val>, n: nat)
    requires Closed(h, refs) && AllRefs(vs) <= refs
    ensures ReachAll(h, vs, n) <= refs
    decreases n, vs, 0
  {
    if vs != [] {
      ClosedHolds(h, refs, vs[0], n);
      ClosedHoldsAll(h, refs, vs[1..], n);
    }
  }

  lemma ClosedTogether(h: Heap, a: set<Ref>, b: set<Ref>)
    requires Closed(h, a) && Closed(h, b)
    ensures Closed(h, a + b)
  {
    forall r | r in a + b ensures Within(h, a + b, r) {
      assert if r in a then Within(h, a, r) else Within(h, b, r);
    }
  }

  lemma ClosedWithOwner(h: Heap, refs: set<Ref>, r: Ref)
    requires Closed(h, refs) && r < |h| && CellRefs(h[r]) <= refs
    ensures Closed(h, {r} + refs)
  {
    forall q | q in {r} + refs ensures Within(h, {r} + refs, q) {
      assert q != r ==> Within(h, refs, q);
    }
  }

  lemma OwnerIsClosed(h: Heap, r: Ref, vs: set<Ref>, more: set<Ref>)
    requires r < |h| && Closed(h, vs) && Closed(h, more)
    requires AllRefs(h[r].values) <= vs && AllRefs(h[r].attributes) <= more
    ensures Closed(h, {r} + (vs + more))
  {
    ClosedTogether(h, vs, more);
    ClosedWithOwner(h, vs + more, r);
  }

  lemma ClosedAfterWrite(h: Heap, h': Heap, refs: set<Ref>, at: Ref, cell: Cell)
    requires Closed(h, refs) && at < |h| <= |h'|
    requires forall r: Ref :: r < |h| ==> h'[r] == if r == at then cell else h[r]
    requires at in refs ==> CellRefs(cell) <= refs
    ensures Closed(h', refs)
  {
    forall r | r in refs ensures Within(h', refs, r) {
      assert Within(h, refs, r);
    }
  }

  lemma {:induction false} RefsAreReached(h: Heap, v: Val, n: nat)
    ensures Refs(v) <= Reach(h, v, n)
    decreases v, 1
  {
    match v
    case Frozen(items) => AllRefsAreReached(h, items, n);
    case _ =>
  }

  lemma {:induction false} AllRefsAreReached(h: Heap, vs: seq<Val>, n: nat)
    ensures AllRefs(vs) <= ReachAll(h, vs, n)
    decreases vs, 0
  {
    if vs != [] {
      RefsAreReached(h, vs[0], n);
      AllRefsAreReached(h, vs[1..], n);
    }
  }

  lemma {:induction false} ReachIsClosed(h: Heap, v: Val, n: nat)
    requires Whole(h, v, n)
    ensures Closed(h, Reach(h, v, n))
    decreases n, v, 1
  {
    match v
    case Leaf(_) =>
    case Frozen(items) => ReachAllIsClosed(h, items, n);
    case Obj(r) =>
      ReachAllIsClosed(h, h[r].values, n - 1);
      ReachAllIsClosed(h, h[r].attributes, n - 1);
      AllRefsAreReached(h, h[r].values, n - 1);
      AllRefsAreReached(h, h[r].attributes, n - 1);
      OwnerIsClosed(h, r, ReachAll(h, h[r].values, n - 1), ReachAll(h, h[r].attributes, n - 1));
      ReachOfObject(h, r, n);
  }

  lemma ReachOfObject(h: Heap, r: Ref, n: nat)
    requires Whole(h, Obj(r), n)
    ensures Reach(h, Obj(r), n) == {r} + (ReachAll(h, h[r].values, n - 1) + ReachAll(h, h[r].attributes, n - 1))
  {
  }

  lemma {:induction false} ReachAllIsClosed(h: Heap, vs: seq<Val>, n: nat)
    requires AllWhole(h, vs, n)
    ensures Closed(h, ReachAll(h, vs, n))
    decreases n, vs, 0
  {
    if vs != [] {
      ReachIsClosed(h, vs[0], n);
      ReachAllIsClosed(h, vs[1..], n);
      ClosedTogether(h, Reach(h, vs[0], n), ReachAll(h, vs[1..], n));
    }
  }

  lemma {:induction false} RefsOfUpdate(vs: seq<Val>, i: nat, v: Val)
    ensures i < |vs| ==> AllRefs(vs[i := v]) <= AllRefs(vs) + Refs(v)
    ensures AllRefs(vs + [v]) == AllRefs(vs) + Refs(v)
    ensures i < |vs| ==> Refs(vs[i]) <= AllRefs(vs)
  {
    if vs == [] {
      assert vs + [v] == [v] && [v][1..] == [];
    } else {
      RefsOfUpdate(vs[1..], if i == 0 then 0 else i - 1, v);
      assert (vs + [v])[1..] == vs[1..] + [v];
      if 0 < i < |vs| {
        assert vs[i := v][1..] == vs[1..][i - 1 := v];
      }
    }
  }

  lemma NodeRefs(c: Cell, name: string, v: Val, attributes: Val)
    requires |c.labels| == |c.values| == |c.attributes|
    ensures CellRefs(WithNode(c, name, v, attributes)) <= CellRefs(c) + Refs(v) + Refs(attributes)
    ensures var i := IndexOf(c.labels, name); i < |c.labels| ==> Refs(c.values[i]) <= CellRefs(c)
  {
    var i := IndexOf(c.labels, name);
    RefsOfUpdate(c.values, i, v);
    RefsOfUpdate(c.attributes, i, attributes);
  }

  /** What comes out of the store is a copy of what is there. */
  lemma ReceivedIsACopy(w: World, bag: Ref, name: string, n: nat)
    requires Sides(w) && Enabled(w, GetItem(bag, name, n))
    ensures var (h', v') := Received(w, bag, name, n);
            match ValueAt(w.heap, bag, name)
            case None => v' == None && h' == w.heap
            case Some(v) => v'.Some? && Refs(v) <= w.store && IsCopy(w.heap, w.heap, v, n, false, h', v'.value)
  {
    NodeRefs(w.heap[bag], name, Leaf(""), Leaf(""));
    match ValueAt(w.heap, bag, name)
    case None =>
    case Some(v) => CopyIsACopy(w.heap, w.heap, v, n, false);
  }

  lemma GetKeepsSides(w: World, bag: Ref, name: string, n: nat)
    requires Sides(w) && Apart(w) && Enabled(w, GetItem(bag, name, n))
    ensures var step := GetItem(bag, name, n); Sides(Next(w, step)) && (Apart(Next(w, step)) <==> Clean(w, step))
  {
    ReceivedIsACopy(w, bag, name, n);
    var (h', v') := Received(w, bag, name, n);
    match ValueAt(w.heap, bag, name)
    case None =>
    case Some(v) =>
      ReachIsClosed(h', v'.value, n);
      ClosedHolds(w.heap, w.store, v, n);
      WholeStaysInside(w.heap, v, n, false);
      var shared := Old(Reach(h', v'.value, n), |w.heap|);
      assert shared <= w.store;
      if shared == {} {
        forall r | r in Reach(h', v'.value, n) ensures r !in w.store {
          assert r !in shared;
        }
      } else {
        var r :| r in shared;
        assert r in Next(w, GetItem(bag, name, n)).site && r in w.store;
      }
  }

  lemma SetKeepsSides(w: World, step: Step)
    requires Sides(w) && Apart(w) && step.SetItem? && Enabled(w, step)
    ensures Sides(Next(w, step)) && (Apart(Next(w, step)) <==> Clean(w, step))
  {
    SetKeepsSite(w, step);
    SetKeepsStore(w, step);
    SetApart(w, step);
  }

  lemma SetKeepsSite(w: World, step: Step)
    requires Sides(w) && Apart(w) && step.SetItem? && Enabled(w, step)
    ensures Closed(Next(w, step).heap, w.site)
  {
    CopyIsACopy(w.heap, w.heap, step.value, step.depth, false);
    assert step.bag !in w.site;
    ClosedAfterWrite(w.heap, Next(w, step).heap, w.site, step.bag, Next(w, step).heap[step.bag]);
  }

  lemma SetKeepsStore(w: World, step: Step)
    requires Sides(w) && step.SetItem? && Enabled(w, step)
    ensures Closed(Next(w, step).heap, Next(w, step).store)
  {
    var SetItem(bag, name, v, attributes, n) := step;
    var (h', v') := Copied(w.heap, w.heap, v, n, false);
    CopyIsACopy(w.heap, w.heap, v, n, false);
    ReachIsClosed(h', v', n);
    RefsAreReached(h', v', n);
    ReachAllIsClosed(w.heap, attributes, n);
    AllRefsAreReached(w.heap, attributes, n);
    NodeRefs(w.heap[bag], name, v', Frozen(attributes));
    var cell := WithNode(w.heap[bag], name, v', Frozen(attributes));
    assert CellRefs(w.heap[bag]) <= w.store;
    StoreTakesIn(w.heap, h', w.store, Reach(h', v', n), ReachAll(w.heap, attributes, n), bag, cell);
  }

  lemma SetApart(w: World, step: Step)
    requires Sides(w) && Apart(w) && step.SetItem? && Enabled(w, step)
    ensures Apart(Next(w, step)) <==> Clean(w, step)
  {
    var SetItem(bag, name, v, attributes, n) := step;
    var (h', v') := Copied(w.heap, w.heap, v, n, false);
    CopyIsACopy(w.heap, w.heap, v, n, false);
    ClosedHoldsAll(w.heap, w.site, attributes, n);
    NewOrShared(w, v, n, Reach(h', v', n));
    var given := ReachAll(w.heap, attributes, n);
    if r :| r in given {
      assert r in w.site && r in Next(w, step).store;
    }
  }

  /** The store stays closed when a Bag of it takes in what came and what was given. */
  lemma StoreTakesIn(h: Heap, h': Heap, store: set<Ref>, came: set<Ref>, given: set<Ref>, bag: Ref, cell: Cell)
    requires h <= h' && Closed(h, store) && Closed(h', came) && Closed(h, given) && bag in store
    requires CellRefs(cell) <= store + came + given
    ensures Closed(h'[bag := cell], store + came + given)
  {
    assert Closed(h', store) && Closed(h', given);
    ClosedTogether(h', store, came);
    ClosedTogether(h', store + came, given);
    ClosedAfterWrite(h', h'[bag := cell], store + came + given, bag, cell);
  }

  /** What a copied value of the site reaches avoids the site when nothing is exposed,
      and meets it otherwise. */
  lemma NewOrShared(w: World, v: Val, n: nat, came: set<Ref>)
    requires Sides(w) && Refs(v) <= w.site && Whole(w.heap, v, n)
    requires Old(came, |w.heap|) == Exposed(w.heap, v, n, false)
    ensures came !! w.site <==> Exposed(w.heap, v, n, false) == {}
  {
    ClosedHolds(w.heap, w.site, v, n);
    WholeStaysInside(w.heap, v, n, false);
    var shared := Old(came, |w.heap|);
    if shared == {} {
      forall r | r in came ensures r !in w.site {
        assert r !in shared;
      }
    } else {
      var r :| r in shared;
      assert r in came && r in w.site;
    }
  }

  /** From two sides apart, a step leaves them apart exactly when it is clean: a read or
      a write makes the sides share an object precisely when the value that crosses
      exposes one. */
  lemma StepKeepsApart(w: World, step: Step)
    requires Sides(w) && Apart(w) && Enabled(w, step)
    ensures Sides(Next(w, step))
    ensures Apart(Next(w, step)) <==> Clean(w, step)
  {
    match step
    case GetItem(bag, name, n) => GetKeepsSides(w, bag, name, n);
    case SetItem(_, _, _, _, _) => SetKeepsSides(w, step);
    case _ =>
  }

  predicate Feasible(w: World, steps: seq<Step>)
    decreases |steps|
  {
    steps == [] || (Enabled(w, steps[0]) && Clean(w, steps[0]) && Feasible(Next(w, steps[0]), steps[1..]))
  }

  function After(w: World, steps: seq<Step>): World
    requires Feasible(w, steps)
    decreases |steps|
  {
    if steps == [] then w else After(Next(w, steps[0]), steps[1..])
  }

  /** Only the site works, or reads. */
  predicate BySite(steps: seq<Step>) {
    forall step <- steps :: !step.StoreWrites? && !step.SetItem?
  }

  /** Only the store works, or keeps what it is given. */
  predicate ByStore(steps: seq<Step>) {
    forall step <- steps :: step.StoreWrites? || step.SetItem?
  }

  lemma StepLeavesOtherSide(w: World, step: Step, v: Val, n: nat)
    requires Sides(w) && Apart(w) && Enabled(w, step) && Clean(w, step)
    ensures !step.StoreWrites? && !step.SetItem? && Refs(v) <= w.store
        ==> Content(Next(w, step).heap, v, n) == Content(w.heap, v, n)
    ensures (step.StoreWrites? || step.SetItem?) && Refs(v) <= w.site
        ==> Content(Next(w, step).heap, v, n) == Content(w.heap, v, n)
    ensures w.site <= Next(w, step).site && w.store <= Next(w, step).store
    ensures !step.StoreWrites? && !step.SetItem? ==>
              forall r <- w.store :: r < |w.heap| && r < |Next(w, step).heap| && Next(w, step).heap[r] == w.heap[r]
  {
    var h' := Next(w, step).heap;
    if step.GetItem? {
      ReceivedIsACopy(w, step.bag, step.name, step.depth);
    }
    if step.SetItem? {
      CopyIsACopy(w.heap, w.heap, step.value, step.depth, false);
    }
    if (step.StoreWrites? || step.SetItem?) && Refs(v) <= w.site {
      ClosedHolds(w.heap, w.site, v, n);
      AgreeKeeps(w.heap, h', v, n);
    }
    if !step.StoreWrites? && !step.SetItem? && Refs(v) <= w.store {
      ClosedHolds(w.heap, w.store, v, n);
      AgreeKeeps(w.heap, h', v, n);
    }
  }

  /** Over every run of clean steps the sides stay apart; whatever the site does leaves
      every value of the store as it was, and whatever the store does every value of
      the site. */
  lemma {:induction false} SidesStayApart(w: World, steps: seq<Step>, v: Val, n: nat)
    requires Sides(w) && Apart(w) && Feasible(w, steps)
    ensures Sides(After(w, steps)) && Apart(After(w, steps))
    ensures BySite(steps) && Refs(v) <= w.store ==> Content(After(w, steps).heap, v, n) == Content(w.heap, v, n)
    ensures ByStore(steps) && Refs(v) <= w.site ==> Content(After(w, steps).heap, v, n) == Content(w.heap, v, n)
    ensures w.store <= After(w, steps).store
    ensures BySite(steps) ==> forall r <- w.store ::
              r < |w.heap| && r < |After(w, steps).heap| && After(w, steps).heap[r] == w.heap[r]
    decreases |steps|
  {
    if steps != [] {
      assert steps[0] in steps;
      StepKeepsApart(w, steps[0]);
      StepLeavesOtherSide(w, steps[0], v, n);
      SidesStayApart(Next(w, steps[0]), steps[1..], v, n);
    }
  }

  /** A step that leaves this name of this Bag alone, and what was kept behind it. */
  predicate Spares(step: Step, bag: Ref, name: string, kept: set<Ref>) {
    match step
    case StoreWrites(r, _) => r != bag && r !in kept
    case SetItem(b, other, _, _, _) => b !in kept && (b != bag || other != name)
    case _ => true
  }

  /** The store keeps this value behind the name. */
  ghost predicate Keeps(w: World, bag: Ref, name: string, v: Val, n: nat) {
    && bag in w.store && IsBag(w.heap, bag) && ValueAt(w.heap, bag, name) == Some(v)
    && Whole(w.heap, v, n) && Reach(w.heap, v, n) <= w.store
  }

  /** No sparing step touches what is kept, nor the Bag but by a node of another name. */
  lemma SparedCells(w: World, step: Step, bag: Ref, name: string, kept: set<Ref>)
    requires Sides(w) && Apart(w) && Enabled(w, step) && Spares(step, bag, name, kept)
    requires bag in w.store && kept <= w.store && IsBag(w.heap, bag)
    ensures var h' := Next(w, step).heap;
            && |w.heap| <= |h'|
            && (forall r <- kept :: r < |w.heap| && h'[r] == w.heap[r])
            && IsBag(h', bag) && ValueAt(h', bag, name) == ValueAt(w.heap, bag, name)
            && AttributesAt(h', bag, name) == AttributesAt(w.heap, bag, name)
  {
    forall r | r in kept ensures r < |w.heap| { assert Within(w.heap, w.store, r); }
    if step.GetItem? {
      ReceivedIsACopy(w, step.bag, step.name, step.depth);
    }
    if step.SetItem? {
      var (h1, came) := Copied(w.heap, w.heap, step.value, step.depth, false);
      CopyIsACopy(w.heap, w.heap, step.value, step.depth, false);
      if step.bag == bag {
        OthersAreKept(w.heap[bag], step.name, came, Frozen(step.attributes), name);
      }
    }
  }

  lemma SparingStepKeeps(w: World, step: Step, bag: Ref, name: string, v: Val, n: nat)
    requires Sides(w) && Apart(w) && Enabled(w, step) && Clean(w, step) && Keeps(w, bag, name, v, n)
    requires Spares(step, bag, name, Reach(w.heap, v, n))
    ensures Keeps(Next(w, step), bag, name, v, n)
    ensures Content(Next(w, step).heap, v, n) == Content(w.heap, v, n)
    ensures Reach(Next(w, step).heap, v, n) == Reach(w.heap, v, n)
  {
    SparedCells(w, step, bag, name, Reach(w.heap, v, n));
    AgreeKeeps(w.heap, Next(w, step).heap, v, n);
    StepLeavesOtherSide(w, step, v, n);
  }

  lemma {:induction false} SparingRunKeeps(w: World, steps: seq<Step>, bag: Ref, name: string, v: Val, n: nat)
    requires Sides(w) && Apart(w) && Feasible(w, steps) && Keeps(w, bag, name, v, n)
    requires forall step <- steps :: Spares(step, bag, name, Reach(w.heap, v, n))
    ensures Sides(After(w, steps)) && Keeps(After(w, steps), bag, name, v, n)
    ensures Content(After(w, steps).heap, v, n) == Content(w.heap, v, n)
    decreases |steps|
  {
    if steps != [] {
      assert steps[0] in steps;
      StepKeepsApart(w, steps[0]);
      SparingStepKeeps(w, steps[0], bag, name, v, n);
      SparingRunKeeps(Next(w, steps[0]), steps[1..], bag, name, v, n);
    }
  }

  /** A write leaves every other name of its Bag as it was, value, attributes and order,
      and every other object there was. */
  lemma WriteKeepsOthers(w: World, write: Step, other: string)
    requires write.SetItem? && Enabled(w, write) && other != write.name
    ensures var h' := Next(w, write).heap;
            && |w.heap| <= |h'|
            && (forall r: Ref :: r < |w.heap| && r != write.bag ==> h'[r] == w.heap[r])
            && IsBag(h', write.bag)
            && ValueAt(h', write.bag, other) == ValueAt(w.heap, write.bag, other)
            && AttributesAt(h', write.bag, other) == AttributesAt(w.heap, write.bag, other)
            && AttributesAt(h', write.bag, write.name) == Some(Frozen(write.attributes))
            && h'[write.bag].labels == w.heap[write.bag].labels
               + if write.name in w.heap[write.bag].labels then [] else [write.name]
  {
    var (h1, came) := Copied(w.heap, w.heap, write.value, write.depth, false);
    CopyIsACopy(w.heap, w.heap, write.value, write.depth, false);
    OthersAreKept(w.heap[write.bag], write.name, came, Frozen(write.attributes), other);
    NodeIsThere(w.heap[write.bag], write.name, came, Frozen(write.attributes));
  }

  lemma OthersAreKept(c: Cell, name: string, v: Val, attributes: Val, other: string)
    requires |c.labels| == |c.values| == |c.attributes| && other != name
    ensures var c', i := WithNode(c, name, v, attributes), IndexOf(c.labels, other);
            && |c'.labels| == |c'.values| == |c'.attributes| && c'.kind == c.kind
            && c'.labels == c.labels + (if name in c.labels then [] else [name])
            && (i == |c.labels| ==> IndexOf(c'.labels, other) == |c'.labels|)
            && (i < |c.labels| ==>
                  IndexOf(c'.labels, other) == i && c'.values[i] == c.values[i] && c'.attributes[i] == c.attributes[i])
  {
    var c', i, k := WithNode(c, name, v, attributes), IndexOf(c.labels, other), IndexOf(c.labels, name);
    var i' := IndexOf(c'.labels, other);
    assert k < |c.labels| ==> c.labels[k] in c.labels;
    assert k == |c.labels| ==> forall j :: 0 <= j < |c.labels| ==> c.labels[j] != name;
    assert forall j :: 0 <= j < |c.labels| ==> c'.labels[j] == c.labels[j];
    if i < |c.labels| {
      assert c'.labels[i] == other;
    } else {
      assert forall j :: 0 <= j < |c'.labels| ==> c'.labels[j] != other;
    }
  }

  /** What was written is what is read, whatever the site does meanwhile with the object
      it wrote, with copies it reads, or with anything else it can get at, and whatever the
      store writes under other names or into other objects than the value it keeps. */
  lemma ReadAsWritten(w: World, write: Step, steps: seq<Step>)
    requires Sides(w) && Apart(w) && write.SetItem? && Enabled(w, write) && Clean(w, write)
    requires Feasible(Next(w, write), steps)
    requires var kept := Copied(w.heap, w.heap, write.value, write.depth, false).1;
             forall step <- steps ::
               Spares(step, write.bag, write.name, Reach(Next(w, write).heap, kept, write.depth))
    ensures var w2, read := After(Next(w, write), steps), GetItem(write.bag, write.name, write.depth);
            && Enabled(w2, read)
            && var (h', v') := Received(w2, write.bag, write.name, write.depth);
               v'.Some? && Content(h', v'.value, write.depth) == Content(w.heap, write.value, write.depth)
  {
    var kept := Copied(w.heap, w.heap, write.value, write.depth, false).1;
    WrittenIsKept(w, write);
    StepKeepsApart(w, write);
    SparingRunKeeps(Next(w, write), steps, write.bag, write.name, kept, write.depth);
    ReceivedIsACopy(After(Next(w, write), steps), write.bag, write.name, write.depth);
  }

  /** Behind the name the store now has the copy, out of the site's reach. */
  lemma WrittenIsKept(w: World, write: Step)
    requires Sides(w) && Apart(w) && write.SetItem? && Enabled(w, write) && Clean(w, write)
    ensures var w1, kept := Next(w, write), Copied(w.heap, w.heap, write.value, write.depth, false).1;
            && write.bag in w1.store && IsBag(w1.heap, write.bag)
            && ValueAt(w1.heap, write.bag, write.name) == Some(kept)
            && Whole(w1.heap, kept, write.depth) && Reach(w1.heap, kept, write.depth) <= w1.store
            && Refs(kept) <= w1.store
            && Content(w1.heap, kept, write.depth) == Content(w.heap, write.value, write.depth)
  {
    var SetItem(bag, name, v, attributes, n) := write;
    var (h1, kept) := Copied(w.heap, w.heap, v, n, false);
    CopyIsACopy(w.heap, w.heap, v, n, false);
    ReachIsClosed(h1, kept, n);
    RefsAreReached(h1, kept, n);
    assert bag !in Old(Reach(h1, kept, n), |w.heap|);
    AgreeKeeps(h1, Next(w, write).heap, kept, n);
    NodeIsThere(w.heap[bag], name, kept, Frozen(attributes));
  }

  lemma NodeIsThere(c: Cell, name: string, v: Val, attributes: Val)
    requires |c.labels| == |c.values| == |c.attributes|
    ensures var c' := WithNode(c, name, v, attributes);
            var i := IndexOf(c'.labels, name);
            |c'.labels| == |c'.values| == |c'.attributes| && i < |c'.labels| && c'.values[i] == v
  {
    var c' := WithNode(c, name, v, attributes);
    var i := IndexOf(c.labels, name);
    assert c'.labels[i] == name;
    assert forall j :: 0 <= j < i ==> c'.labels[j] == c.labels[j];
  }
}
