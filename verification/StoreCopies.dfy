/** What a register store hands out and keeps: copies, over an explicit heap of mutable
    objects, so that sharing can be spoken of. */
module StoreCopies {

  /** An object is its place in the heap; places are never reused. */
  type Ref = nat

  /** A leaf is an immutable value, such as a number, a text or a date. A frozen value is
      an immutable wrapper, such as a tuple, over other values. Anything else is an object
      of the heap. */
  datatype Val = Leaf(text: string) | Frozen(items: seq<Val>) | Obj(ref: Ref)

  datatype Kind = Bag | Container | Other

  /** A Bag's cell holds its nodes: label, value, and as one frozen value the attributes.
      The node and its attribute dictionary belong to one Bag and are as fresh as its
      cell. A container is a dict, a list or a set, with no attributes. Any other mutable
      object, such as a bytearray, a deque or an instance, holds its state as values. */
  datatype Cell = Cell(kind: Kind, labels: seq<string>, values: seq<Val>, attributes: seq<Val>)

  type Heap = seq<Cell>

  /* ---------------- what a value holds ---------------- */

  /** A value's content, down to a depth, without any identity. */
  datatype Tree =
    | Text(text: string)
    | Tuple(items: seq<Tree>)
    | Thing(kind: Kind, labels: seq<string>, values: seq<Tree>, attributes: seq<Tree>)
    | Dangling
    | Deeper

  function Content(h: Heap, v: Val, n: nat): Tree
    decreases n, v, 1
  {
    match v
    case Leaf(text) => Text(text)
    case Frozen(items) => Tuple(Contents(h, items, n))
    case Obj(r) =>
      if n == 0 then Deeper
      else if r >= |h| then Dangling
      else Thing(h[r].kind, h[r].labels, Contents(h, h[r].values, n - 1), Contents(h, h[r].attributes, n - 1))
  }

  function Contents(h: Heap, vs: seq<Val>, n: nat): seq<Tree>
    decreases n, vs, 0
  {
    if vs == [] then [] else [Content(h, vs[0], n)] + Contents(h, vs[1..], n)
  }

  /** The objects met in a value down to a depth. */
  function Reach(h: Heap, v: Val, n: nat): set<Ref>
    decreases n, v, 1
  {
    match v
    case Leaf(_) => {}
    case Frozen(items) => ReachAll(h, items, n)
    case Obj(r) =>
      if n == 0 || r >= |h| then {r}
      else {r} + ReachAll(h, h[r].values, n - 1) + ReachAll(h, h[r].attributes, n - 1)
  }

  function ReachAll(h: Heap, vs: seq<Val>, n: nat): set<Ref>
    decreases n, vs, 0
  {
    if vs == [] then {} else Reach(h, vs[0], n) + ReachAll(h, vs[1..], n)
  }

  /** Nothing dangles or lies deeper than `n`: in particular the value has no cycle. */
  predicate Whole(h: Heap, v: Val, n: nat)
    decreases n, v, 1
  {
    match v
    case Leaf(_) => true
    case Frozen(items) => AllWhole(h, items, n)
    case Obj(r) => n > 0 && r < |h| && AllWhole(h, h[r].values, n - 1) && AllWhole(h, h[r].attributes, n - 1)
  }

  predicate AllWhole(h: Heap, vs: seq<Val>, n: nat)
    decreases n, vs, 0
  {
    vs == [] || (Whole(h, vs[0], n) && AllWhole(h, vs[1..], n))
  }

  /* ---------------- the copy ---------------- */

  /** A Bag is rebuilt node by node, each with a new dictionary of the same attribute
      values; a container goes to the general deep copy (`deep`), which copies all it
      meets, frozen values, attributes and other objects included; any other value is
      handed over as it is. New objects are placed at the end of `to`, which began as `h`. */
  function Copied(h: Heap, to: Heap, v: Val, n: nat, deep: bool): (Heap, Val)
    requires Whole(h, v, n)
    decreases n, v, 1
  {
    match v
    case Leaf(_) => (to, v)
    case Frozen(items) =>
      if deep then
        var (to1, copies) := AllCopied(h, to, items, n, true);
        (to1, Frozen(copies))
      else (to, v)
    case Obj(r) =>
      if h[r].kind == Other && !deep then (to, v) else
      var (to1, values) := AllCopied(h, to, h[r].values, n - 1, deep || h[r].kind == Container);
      var (to2, attributes) :=
        if deep || h[r].kind == Container then AllCopied(h, to1, h[r].attributes, n - 1, true)
        else (to1, h[r].attributes);
      (to2 + [h[r].(values := values, attributes := attributes)], Obj(|to2|))
  }

  function AllCopied(h: Heap, to: Heap, vs: seq<Val>, n: nat, deep: bool): (Heap, seq<Val>)
    requires AllWhole(h, vs, n)
    decreases n, vs, 0
  {
    if vs == [] then (to, [])
    else
      var (to1, v) := Copied(h, to, vs[0], n, deep);
      var (to2, rest) := AllCopied(h, to1, vs[1..], n, deep);
      (to2, [v] + rest)
  }

  /** The objects met in what is handed over as it is, outside of containers: frozen
      values, attributes, and objects that are neither Bag nor container. */
  function Exposed(h: Heap, v: Val, n: nat, deep: bool): set<Ref>
    decreases n, v, 1
  {
    match v
    case Leaf(_) => {}
    case Frozen(items) => if deep then {} else ReachAll(h, items, n)
    case Obj(r) =>
      if n == 0 || r >= |h| || deep || h[r].kind == Container then {}
      else if h[r].kind == Other then Reach(h, v, n)
      else AllExposed(h, h[r].values, n - 1, false) + ReachAll(h, h[r].attributes, n - 1)
  }

  function AllExposed(h: Heap, vs: seq<Val>, n: nat, deep: bool): set<Ref>
    decreases n, vs, 0
  {
    if vs == [] then {} else Exposed(h, vs[0], n, deep) + AllExposed(h, vs[1..], n, deep)
  }

  /* ---------------- what a value does not depend on ---------------- */

  /** The heaps hold the same cells at these places. */
  predicate Agree(h: Heap, h': Heap, refs: set<Ref>) {
    forall r <- refs :: (r < |h| <==> r < |h'|) && (r < |h| ==> h[r] == h'[r])
  }

  /** A value is the same in every heap that agrees on what it reaches. */
  lemma {:induction false} AgreeKeeps(h: Heap, h': Heap, v: Val, n: nat)
    requires Agree(h, h', Reach(h, v, n))
    ensures Content(h', v, n) == Content(h, v, n) && Reach(h', v, n) == Reach(h, v, n)
    ensures Whole(h', v, n) == Whole(h, v, n)
    decreases n, v, 1
  {
    match v
    case Leaf(_) =>
    case Frozen(items) => AgreeKeepsAll(h, h', items, n);
    case Obj(r) =>
      assert r in Reach(h, v, n);
      if n > 0 && r < |h| {
        AgreeKeepsAll(h, h', h[r].values, n - 1);
        AgreeKeepsAll(h, h', h[r].attributes, n - 1);
      }
  }

  lemma {:induction false} AgreeKeepsAll(h: Heap, h': Heap, vs: seq<Val>, n: nat)
    requires Agree(h, h', ReachAll(h, vs, n))
    ensures Contents(h', vs, n) == Contents(h, vs, n) && ReachAll(h', vs, n) == ReachAll(h, vs, n)
    ensures AllWhole(h', vs, n) == AllWhole(h, vs, n)
    decreases n, vs, 0
  {
    if vs != [] {
      AgreeKeeps(h, h', vs[0], n);
      AgreeKeepsAll(h, h', vs[1..], n);
    }
  }

  lemma {:induction false} WholeStaysInside(h: Heap, v: Val, n: nat, deep: bool)
    requires Whole(h, v, n)
    ensures forall r <- Reach(h, v, n) :: r < |h|
    ensures Exposed(h, v, n, deep) <= Reach(h, v, n)
    ensures deep ==> Exposed(h, v, n, deep) == {}
    decreases n, v, 1
  {
    match v
    case Leaf(_) =>
    case Frozen(items) => AllWholeStayInside(h, items, n, deep);
    case Obj(r) =>
      AllWholeStayInside(h, h[r].values, n - 1, deep);
      AllWholeStayInside(h, h[r].attributes, n - 1, deep);
  }

  lemma {:induction false} AllWholeStayInside(h: Heap, vs: seq<Val>, n: nat, deep: bool)
    requires AllWhole(h, vs, n)
    ensures forall r <- ReachAll(h, vs, n) :: r < |h|
    ensures AllExposed(h, vs, n, deep) <= ReachAll(h, vs, n)
    ensures deep ==> AllExposed(h, vs, n, deep) == {}
    decreases n, vs, 0
  {
    if vs != [] {
      WholeStaysInside(h, vs[0], n, deep);
      AllWholeStayInside(h, vs[1..], n, deep);
    }
  }

  lemma GrowthKeeps(h: Heap, h': Heap, v: Val, n: nat)
    requires h <= h' && Whole(h, v, n)
    ensures Content(h', v, n) == Content(h, v, n) && Reach(h', v, n) == Reach(h, v, n) && Whole(h', v, n)
  {
    WholeStaysInside(h, v, n, false);
    AgreeKeeps(h, h', v, n);
  }

  lemma GrowthKeepsAll(h: Heap, h': Heap, vs: seq<Val>, n: nat)
    requires h <= h' && AllWhole(h, vs, n)
    ensures Contents(h', vs, n) == Contents(h, vs, n) && ReachAll(h', vs, n) == ReachAll(h, vs, n)
    ensures AllWhole(h', vs, n)
  {
    AllWholeStayInside(h, vs, n, false);
    AgreeKeepsAll(h, h', vs, n);
  }

  /* ---------------- what the copy is ---------------- */

  /** The objects placed below `limit`. */
  function Old(refs: set<Ref>, limit: nat): set<Ref> {
    set r <- refs | r < limit
  }

  /** What holds of a copy `v'` in `to'` of `v` in `h`, made behind `to`: no object was
      touched, the content is the same, and the old objects the copy still reaches are
      those exposed. */
  predicate IsCopy(h: Heap, to: Heap, v: Val, n: nat, deep: bool, to': Heap, v': Val) {
    && to <= to' && Whole(to', v', n)
    && Content(to', v', n) == Content(h, v, n)
    && Old(Reach(to', v', n), |to|) == Exposed(h, v, n, deep)
  }

  predicate AreCopies(h: Heap, to: Heap, vs: seq<Val>, n: nat, deep: bool, to': Heap, vs': seq<Val>) {
    && to <= to' && AllWhole(to', vs', n)
    && Contents(to', vs', n) == Contents(h, vs, n)
    && Old(ReachAll(to', vs', n), |to|) == AllExposed(h, vs, n, deep)
  }

  lemma {:induction false} CopyIsACopy(h: Heap, to: Heap, v: Val, n: nat, deep: bool)
    requires Whole(h, v, n) && h <= to
    ensures var (to', v') := Copied(h, to, v, n, deep); IsCopy(h, to, v, n, deep, to', v')
    decreases n, v, 1
  {
    WholeStaysInside(h, v, n, deep);
    match v
    case Leaf(_) =>
    case Frozen(items) =>
      if deep {
        CopiesAreCopies(h, to, items, n, true);
        AllWholeStayInside(h, items, n, true);
      } else {
        GrowthKeeps(h, to, v, n);
      }
    case Obj(r) =>
      if h[r].kind == Other && !deep {
        GrowthKeeps(h, to, v, n);
      } else {
        ObjectIsACopy(h, to, r, n, deep);
      }
  }

  lemma {:induction false} ObjectIsACopy(h: Heap, to: Heap, r: Ref, n: nat, deep: bool)
    requires Whole(h, Obj(r), n) && h <= to && (h[r].kind == Other ==> deep)
    ensures var (to', v') := Copied(h, to, Obj(r), n, deep); IsCopy(h, to, Obj(r), n, deep, to', v')
    decreases n, Obj(r), 0
  {
    var d := deep || h[r].kind == Container;
    var (to1, values) := AllCopied(h, to, h[r].values, n - 1, d);
    CopiesAreCopies(h, to, h[r].values, n - 1, d);
    AllWholeStayInside(h, h[r].values, n - 1, d);
    AllWholeStayInside(h, h[r].attributes, n - 1, true);
    var (to2, attributes) := if d then AllCopied(h, to1, h[r].attributes, n - 1, true) else (to1, h[r].attributes);
    if d {
      CopiesAreCopies(h, to1, h[r].attributes, n - 1, true);
      OlderToo(ReachAll(to2, attributes, n - 1), |to|, |to1|);
    } else {
      GrowthKeepsAll(h, to1, h[r].attributes, n - 1);
    }
    AssembledCopy(h, to, r, n, deep, to1, values, to2, attributes);
  }

  lemma OlderToo(refs: set<Ref>, a: nat, b: nat)
    requires Old(refs, b) == {} && a <= b
    ensures Old(refs, a) == {}
  {
    assert Old(refs, a) <= Old(refs, b);
  }

  /** From the parts of an object, copied, to its copy. */
  lemma AssembledCopy(h: Heap, to: Heap, r: Ref, n: nat, deep: bool,
                      to1: Heap, values: seq<Val>, to2: Heap, attributes: seq<Val>)
    requires Whole(h, Obj(r), n) && to <= to1 <= to2 && (h[r].kind == Other ==> deep)
    requires AllWhole(to1, values, n - 1) && AllWhole(to2, attributes, n - 1)
    requires Contents(to1, values, n - 1) == Contents(h, h[r].values, n - 1)
    requires Contents(to2, attributes, n - 1) == Contents(h, h[r].attributes, n - 1)
    requires var d := deep || h[r].kind == Container;
             && Old(ReachAll(to1, values, n - 1), |to|)
                == (if d then {} else AllExposed(h, h[r].values, n - 1, false))
             && Old(ReachAll(to2, attributes, n - 1), |to|)
                == (if d then {} else ReachAll(h, h[r].attributes, n - 1))
    ensures IsCopy(h, to, Obj(r), n, deep,
                   to2 + [h[r].(values := values, attributes := attributes)], Obj(|to2|))
  {
    var to' := to2 + [h[r].(values := values, attributes := attributes)];
    GrowthKeepsAll(to1, to', values, n - 1);
    GrowthKeepsAll(to2, to', attributes, n - 1);
    assert Reach(to', Obj(|to2|), n) ==
           {|to2|} + ReachAll(to1, values, n - 1) + ReachAll(to2, attributes, n - 1);
  }

  lemma {:induction false} CopiesAreCopies(h: Heap, to: Heap, vs: seq<Val>, n: nat, deep: bool)
    requires AllWhole(h, vs, n) && h <= to
    ensures var (to', vs') := AllCopied(h, to, vs, n, deep); AreCopies(h, to, vs, n, deep, to', vs')
    decreases n, vs, 0
  {
    if vs != [] {
      var (to1, v) := Copied(h, to, vs[0], n, deep);
      CopyIsACopy(h, to, vs[0], n, deep);
      var (to2, rest) := AllCopied(h, to1, vs[1..], n, deep);
      CopiesAreCopies(h, to1, vs[1..], n, deep);
      GrowthKeeps(to1, to2, v, n);
      WholeStaysInside(h, vs[0], n, deep);
      AllWholeStayInside(h, vs[1..], n, deep);
      assert ([v] + rest)[1..] == rest;
    }
  }

  /** The copy the store makes, at whatever depth of Bags and containers, has the content
      of the original, touches nothing there was, and of the objects there were reaches
      exactly the exposed ones. */
  lemma CopySharesTheExposed(h: Heap, v: Val, n: nat)
    requires Whole(h, v, n)
    ensures var (h', v') := Copied(h, h, v, n, false);
            && h <= h' && Content(h', v', n) == Content(h, v, n) == Content(h', v, n)
            && Old(Reach(h', v', n), |h|) == Exposed(h, v, n, false)
  {
    CopyIsACopy(h, h, v, n, false);
    GrowthKeeps(h, Copied(h, h, v, n, false).0, v, n);
  }

  /* ---------------- sharing is what a mutation shows ---------------- */

  const BARE := Cell(Container, [], [], [])
  const MARKED := Cell(Container, ["mark"], [], [])

  /** Two heaps that differ at one object differ in whatever reaches it. */
  lemma {:induction false} MutationShows(h: Heap, v: Val, n: nat, r: Ref)
    requires Whole(h, v, n) && r in Reach(h, v, n) && r < |h|
    ensures Content(h[r := BARE], v, n) != Content(h[r := MARKED], v, n)
    decreases n, v, 1
  {
    match v
    case Leaf(_) =>
    case Frozen(items) => MutationShowsInList(h, items, n, r);
    case Obj(q) =>
      if q != r {
        if r in ReachAll(h, h[q].values, n - 1) {
          MutationShowsInList(h, h[q].values, n - 1, r);
        } else {
          MutationShowsInList(h, h[q].attributes, n - 1, r);
        }
      }
  }

  lemma {:induction false} MutationShowsInList(h: Heap, vs: seq<Val>, n: nat, r: Ref)
    requires AllWhole(h, vs, n) && r in ReachAll(h, vs, n) && r < |h|
    ensures Contents(h[r := BARE], vs, n) != Contents(h[r := MARKED], vs, n)
    decreases n, vs, 0
  {
    var a, b := h[r := BARE], h[r := MARKED];
    if r in Reach(h, vs[0], n) {
      MutationShows(h, vs[0], n, r);
      assert Contents(a, vs, n)[0] != Contents(b, vs, n)[0];
    } else {
      MutationShowsInList(h, vs[1..], n, r);
      assert Contents(a, vs, n)[1..] != Contents(b, vs, n)[1..];
    }
  }

  /** The heap after some code wrote to an object. */
  function Mutated(h: Heap, r: Ref, c: Cell): Heap {
    if r < |h| then h[r := c] else h
  }

  /** No mutation of an object placed below `limit` shows in the value. */
  ghost predicate Immune(h: Heap, v: Val, n: nat, limit: nat) {
    forall r: Ref, c :: r < limit ==> Content(Mutated(h, r, c), v, n) == Content(h, v, n)
  }

  /** The copy is safe from every mutation of the original, and of anything else there
      was, exactly when nothing was exposed; the original is safe from every mutation of
      what the copy added, always. */
  lemma CopyIsIndependent(h: Heap, v: Val, n: nat)
    requires Whole(h, v, n)
    ensures var (h', v') := Copied(h, h, v, n, false);
            && (Immune(h', v', n, |h|) <==> Exposed(h, v, n, false) == {})
            && (forall r: Ref, c :: r >= |h| ==> Content(Mutated(h', r, c), v, n) == Content(h', v, n))
  {
    var (h', v') := Copied(h, h, v, n, false);
    CopyIsACopy(h, h, v, n, false);
    GrowthKeeps(h, h', v, n);
    WholeStaysInside(h, v, n, false);
    var shared := Old(Reach(h', v', n), |h|);
    forall r: Ref, c | r >= |h| ensures Content(Mutated(h', r, c), v, n) == Content(h', v, n) {
      AgreeKeeps(h', Mutated(h', r, c), v, n);
    }
    if shared == {} {
      forall r: Ref, c | r < |h| ensures Content(Mutated(h', r, c), v', n) == Content(h', v', n) {
        assert r !in shared;
        AgreeKeeps(h', Mutated(h', r, c), v', n);
      }
      assert Immune(h', v', n, |h|);
    } else {
      var r :| r in shared;
      MutationShows(h', v', n, r);
      assert Content(Mutated(h', r, BARE), v', n) != Content(Mutated(h', r, MARKED), v', n);
      assert !Immune(h', v', n, |h|);
    }
  }
}
