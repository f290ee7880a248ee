/** A Bag up to the order of its nodes: labels leading to further labels or to leaves, and
    what writes and deletes at paths do to one another. */
module Trees {
  import opened Wrappers
  import opened LegacyBag

  /** A leaf is any value but a Bag. */
  datatype Tree = Leaf(value: Value) | Branch(kids: map<Label, Tree>)

  const EMPTY := Branch(map[])

  function Kids(t: Tree): map<Label, Tree> {
    if t.Branch? then t.kids else map[]
  }

  function Kid(t: Tree, l: Label): Tree {
    if l in Kids(t) then Kids(t)[l] else EMPTY
  }

  /** Whatever stands in the way gives way. */
  function SetAt(t: Tree, path: seq<Label>, v: Tree): Tree
    decreases |path|
  {
    if path == [] then v else Branch(Kids(t)[path[0] := SetAt(Kid(t, path[0]), path[1..], v)])
  }

  function DelAt(t: Tree, path: seq<Label>): Tree
    requires path != []
  {
    if path[0] !in Kids(t) then t
    else if |path| == 1 then Branch(t.kids - {path[0]})
    else Branch(t.kids[path[0] := DelAt(t.kids[path[0]], path[1..])])
  }

  /** A Bag lies at the end of the path but for its last label. */
  predicate ParentThere(t: Tree, path: seq<Label>)
    requires path != []
    decreases |path|
  {
    t.Branch? && (|path| == 1 || (path[0] in t.kids && ParentThere(t.kids[path[0]], path[1..])))
  }

  /* ---------------- one path below the other ---------------- */

  lemma SplitPath(p: seq<Label>, q: seq<Label>)
    requires p != [] && q != []
    ensures p <= q <==> p[0] == q[0] && p[1..] <= q[1..]
    ensures Comparable(p, q) <==> p[0] == q[0] && Comparable(p[1..], q[1..])
  {
    assert p == [p[0]] + p[1..] && q == [q[0]] + q[1..];
  }

  lemma {:induction false} SetOverSet(t: Tree, q: seq<Label>, w: Tree, p: seq<Label>, v: Tree)
    requires p <= q
    ensures SetAt(SetAt(t, q, w), p, v) == SetAt(t, p, v)
    decreases |p|
  {
    if p != [] {
      SplitPath(p, q);
      SetOverSet(Kid(t, p[0]), q[1..], w, p[1..], v);
      assert Kids(t)[p[0] := SetAt(Kid(t, p[0]), q[1..], w)][p[0] := SetAt(Kid(t, p[0]), p[1..], v)]
          == Kids(t)[p[0] := SetAt(Kid(t, p[0]), p[1..], v)];
    }
  }

  lemma {:induction false} SetOverDel(t: Tree, q: seq<Label>, p: seq<Label>, v: Tree)
    requires q != [] && p <= q
    ensures SetAt(DelAt(t, q), p, v) == SetAt(t, p, v)
    decreases |p|
  {
    if p != [] {
      SplitPath(p, q);
      var l := p[0];
      if l in Kids(t) {
        if |q| > 1 {
          SetOverDel(t.kids[l], q[1..], p[1..], v);
        } else {
          assert p[1..] == [];
        }
        assert Kids(DelAt(t, q))[l := SetAt(Kid(DelAt(t, q), l), p[1..], v)] == t.kids[l := SetAt(t.kids[l], p[1..], v)];
      }
    }
  }

  /** Below a write a further write is a write into what was written. */
  lemma {:induction false} SetInsideSet(t: Tree, q: seq<Label>, w: Tree, p: seq<Label>, v: Tree)
    requires q <= p
    ensures SetAt(SetAt(t, q, w), p, v) == SetAt(t, q, SetAt(w, p[|q|..], v))
    decreases |p|
  {
    if q != [] {
      SplitPath(q, p);
      SetInsideSet(Kid(t, q[0]), q[1..], w, p[1..], v);
      assert p[1..][|q[1..]|..] == p[|q|..];
      assert Kids(t)[q[0] := SetAt(Kid(t, q[0]), q[1..], w)][q[0] := SetAt(Kid(t, q[0]), q[1..], SetAt(w, p[|q|..], v))]
          == Kids(t)[q[0] := SetAt(Kid(t, q[0]), q[1..], SetAt(w, p[|q|..], v))];
    }
  }

  lemma {:induction false} SetInsideDel(t: Tree, q: seq<Label>, p: seq<Label>, v: Tree)
    requires q != [] && q < p
    ensures SetAt(DelAt(t, q), p, v) == SetAt(t, q, SetAt(EMPTY, p[|q|..], v))
    decreases |p|
  {
    SplitPath(q, p);
    var l, w := q[0], SetAt(EMPTY, p[|q|..], v);
    assert p[1..][|q[1..]|..] == p[|q|..];
    if |q| == 1 {
      assert q[1..] == [] && p[1..] == p[|q|..];
      assert l !in Kids(DelAt(t, q));
      assert Kids(DelAt(t, q))[l := w] == Kids(t)[l := w];
    } else if l in Kids(t) {
      SetInsideDel(t.kids[l], q[1..], p[1..], v);
      assert Kids(DelAt(t, q))[l := SetAt(t.kids[l], q[1..], w)] == t.kids[l := SetAt(t.kids[l], q[1..], w)];
    } else {
      SetIntoNothing(q[1..], p[1..], v);
    }
  }

  lemma {:induction false} SetIntoNothing(q: seq<Label>, p: seq<Label>, v: Tree)
    requires q <= p
    ensures SetAt(EMPTY, p, v) == SetAt(EMPTY, q, SetAt(EMPTY, p[|q|..], v))
    decreases |p|
  {
    if q != [] {
      SplitPath(q, p);
      SetIntoNothing(q[1..], p[1..], v);
      assert p[1..][|q[1..]|..] == p[|q|..];
      assert Kid(EMPTY, q[0]) == EMPTY;
    } else {
      assert p[|q|..] == p;
    }
  }

  lemma SetTwiceBelow(t: Tree, l: Label, q: seq<Label>, w: Tree, p: seq<Label>, v: Tree)
    ensures SetAt(SetAt(t, [l] + q, w), [l] + p, v) == Branch(Kids(t)[l := SetAt(SetAt(Kid(t, l), q, w), p, v)])
  {
    assert ([l] + q)[1..] == q && ([l] + p)[1..] == p;
    var inner := SetAt(Kid(t, l), q, w);
    assert Kids(t)[l := inner][l := SetAt(inner, p, v)] == Kids(t)[l := SetAt(inner, p, v)];
  }

  lemma PutsCommute(kids: map<Label, Tree>, l: Label, x: Tree, m: Label, y: Tree)
    requires l != m
    ensures kids[l := x][m := y] == kids[m := y][l := x]
  {
  }

  /** Neither path leads through the other: the order does not matter. */
  lemma {:induction false} SetsCommute(t: Tree, q: seq<Label>, w: Tree, p: seq<Label>, v: Tree)
    requires !Comparable(p, q)
    ensures SetAt(SetAt(t, q, w), p, v) == SetAt(SetAt(t, p, v), q, w)
    decreases |p|
  {
    SplitPath(p, q);
    if p[0] == q[0] {
      SetsCommute(Kid(t, p[0]), q[1..], w, p[1..], v);
      SetTwiceBelow(t, p[0], q[1..], w, p[1..], v);
      SetTwiceBelow(t, p[0], p[1..], v, q[1..], w);
      assert p == [p[0]] + p[1..] && q == [p[0]] + q[1..];
    } else {
      PutsCommute(Kids(t), q[0], SetAt(Kid(t, q[0]), q[1..], w), p[0], SetAt(Kid(t, p[0]), p[1..], v));
    }
  }

  lemma {:induction false} SetAndDelCommute(t: Tree, q: seq<Label>, p: seq<Label>, v: Tree)
    requires !Comparable(p, q)
    ensures SetAt(DelAt(t, q), p, v) == DelAt(SetAt(t, p, v), q)
    decreases |p|
  {
    SplitPath(p, q);
    var l, m := p[0], q[0];
    if l == m {
      assert q[1..] != [] && p[1..] != [];
      if l in Kids(t) {
        SetAndDelCommute(t.kids[l], q[1..], p[1..], v);
        assert SetAt(DelAt(t, q), p, v).kids == t.kids[l := SetAt(DelAt(t.kids[l], q[1..]), p[1..], v)];
        assert DelAt(SetAt(t, p, v), q).kids == t.kids[l := DelAt(SetAt(t.kids[l], p[1..], v), q[1..])];
      } else {
        SetAndDelCommute(EMPTY, q[1..], p[1..], v);
        assert DelAt(EMPTY, q[1..]) == EMPTY;
        assert SetAt(t, p, v).kids[l] == SetAt(EMPTY, p[1..], v);
        assert DelAt(SetAt(t, p, v), q).kids == SetAt(t, p, v).kids;
      }
    } else {
      assert Kid(DelAt(t, q), l) == Kid(t, l);
      if m in Kids(t) {
        assert SetAt(DelAt(t, q), p, v).kids == DelAt(SetAt(t, p, v), q).kids;
      }
    }
  }

  lemma {:induction false} DelsCommute(t: Tree, q: seq<Label>, p: seq<Label>)
    requires !Comparable(p, q)
    ensures DelAt(DelAt(t, q), p) == DelAt(DelAt(t, p), q)
    decreases |p|
  {
    SplitPath(p, q);
    var l, m := p[0], q[0];
    if l == m {
      assert q[1..] != [] && p[1..] != [];
      if l in Kids(t) {
        DelsCommute(t.kids[l], q[1..], p[1..]);
        assert DelAt(DelAt(t, q), p).kids == DelAt(DelAt(t, p), q).kids;
      }
    } else if l in Kids(t) && m in Kids(t) {
      assert DelAt(DelAt(t, q), p).kids == DelAt(DelAt(t, p), q).kids;
    }
  }

  lemma {:induction false} DelOverDel(t: Tree, q: seq<Label>, p: seq<Label>)
    requires p != [] && p <= q
    ensures DelAt(DelAt(t, q), p) == DelAt(t, p)
    decreases |p|
  {
    SplitPath(p, q);
    var l := p[0];
    if l in Kids(t) {
      if |p| > 1 {
        DelOverDel(t.kids[l], q[1..], p[1..]);
        assert DelAt(DelAt(t, q), p).kids == DelAt(t, p).kids;
      } else if |q| > 1 {
        assert DelAt(DelAt(t, q), p).kids == DelAt(t, p).kids;
      }
    }
  }

  lemma {:induction false} DelInsideDel(t: Tree, q: seq<Label>, p: seq<Label>)
    requires q != [] && q < p
    ensures DelAt(DelAt(t, q), p) == DelAt(t, q)
    decreases |p|
  {
    SplitPath(q, p);
    var l := q[0];
    if l in Kids(t) && |q| > 1 {
      DelInsideDel(t.kids[l], q[1..], p[1..]);
      assert DelAt(DelAt(t, q), p).kids == DelAt(t, q).kids;
    }
  }

  lemma {:induction false} DelInsideSet(t: Tree, q: seq<Label>, w: Tree, p: seq<Label>)
    requires q < p
    ensures DelAt(SetAt(t, q, w), p) == SetAt(t, q, DelAt(w, p[|q|..]))
    decreases |p|
  {
    if q == [] {
      assert p[|q|..] == p;
    } else {
      SplitPath(q, p);
      DelInsideSet(Kid(t, q[0]), q[1..], w, p[1..]);
      assert p[1..][|q[1..]|..] == p[|q|..];
      assert DelAt(SetAt(t, q, w), p).kids == SetAt(t, q, DelAt(w, p[|q|..])).kids;
    }
  }

  /** A write at or below a path and a delete of that path leave the path's parent there,
      and nothing of what was written. */
  lemma {:induction false} DelOverSet(t: Tree, q: seq<Label>, w: Tree, p: seq<Label>, v: Tree)
    requires p != [] && p <= q
    ensures DelAt(SetAt(t, q, w), p) == DelAt(SetAt(t, p, v), p)
    decreases |p|
  {
    SplitPath(p, q);
    if |p| > 1 {
      DelOverSet(Kid(t, p[0]), q[1..], w, p[1..], v);
    }
    assert DelAt(SetAt(t, q, w), p).kids == DelAt(SetAt(t, p, v), p).kids;
  }

  /** To write and then delete is to delete exactly where the parent was there. */
  lemma {:induction false} DelUndoesSet(t: Tree, p: seq<Label>, v: Tree)
    requires p != []
    ensures DelAt(SetAt(t, p, v), p) == DelAt(t, p) <==> ParentThere(t, p)
    decreases |p|
  {
    var l := p[0];
    if |p| == 1 {
      assert p[1..] == [];
      assert DelAt(SetAt(t, p, v), p).kids == Kids(t) - {l};
      if t.Branch? && l !in t.kids {
        assert t.kids - {l} == t.kids;
      }
    } else {
      DelUndoesSet(Kid(t, l), p[1..], v);
      var inner := DelAt(SetAt(Kid(t, l), p[1..], v), p[1..]);
      assert DelAt(SetAt(t, p, v), p).kids == Kids(t)[l := inner];
      if l in Kids(t) {
        assert DelAt(t, p).kids[l] == DelAt(t.kids[l], p[1..]);
        assert inner == DelAt(t.kids[l], p[1..]) ==> Kids(t)[l := inner] == DelAt(t, p).kids;
        assert Kids(t)[l := inner][l] == inner;
      }
    }
  }

  lemma {:induction false} NothingWithoutAParent(t: Tree, p: seq<Label>)
    requires p != [] && !ParentThere(t, p)
    ensures DelAt(t, p) == t
    decreases |p|
  {
    var l := p[0];
    if l in Kids(t) {
      NothingWithoutAParent(t.kids[l], p[1..]);
      assert t.kids[l := t.kids[l]] == t.kids;
    }
  }

  lemma {:induction false} DelKeepsTheParent(t: Tree, p: seq<Label>)
    requires p != []
    ensures ParentThere(DelAt(t, p), p) <==> ParentThere(t, p)
    decreases |p|
  {
    if p[0] in Kids(t) && |p| > 1 {
      DelKeepsTheParent(t.kids[p[0]], p[1..]);
    }
  }

  /** Two trees that a write makes equal are made equal by a delete exactly if both have
      the parent, or if they are equal as they are. */
  lemma DelsAgree(t: Tree, u: Tree, p: seq<Label>, v: Tree)
    requires p != [] && SetAt(t, p, v) == SetAt(u, p, v)
    ensures DelAt(t, p) == DelAt(u, p) <==> (ParentThere(t, p) && ParentThere(u, p)) || t == u
  {
    DelUndoesSet(t, p, v);
    DelUndoesSet(u, p, v);
    DelKeepsTheParent(t, p);
    DelKeepsTheParent(u, p);
    if !ParentThere(t, p) {
      NothingWithoutAParent(t, p);
    }
    if !ParentThere(u, p) {
      NothingWithoutAParent(u, p);
    }
  }

  /* ---------------- the Bag itself ---------------- */

  function Names(nodes: seq<Node>): set<Label> {
    set n | n in nodes :: n.name
  }

  /** Of nodes that wear one label the first counts, as in every read. */
  function TreeOf(v: Value): Tree
    decreases v
  {
    match v
    case Bag(nodes) =>
      Branch(map l | l in Names(nodes) && Has(nodes, l) :: TreeOf(nodes[IndexOf(nodes, l)].value))
    case _ => Leaf(v)
  }

  /** What stands under a label. */
  function KidAt(nodes: seq<Node>, l: Label): Option<Tree> {
    if Has(nodes, l) then Some(TreeOf(nodes[IndexOf(nodes, l)].value)) else None
  }

  lemma KidsOf(nodes: seq<Node>, l: Label)
    ensures (l in Kids(TreeOf(Bag(nodes)))) == KidAt(nodes, l).Some?
    ensures l in Kids(TreeOf(Bag(nodes))) ==> KidAt(nodes, l) == Some(Kids(TreeOf(Bag(nodes)))[l])
  {
    if Has(nodes, l) {
      assert nodes[IndexOf(nodes, l)] in nodes;
    }
  }

  predicate KidIs(kids: map<Label, Tree>, l: Label, kid: Option<Tree>) {
    kid == if l in kids then Some(kids[l]) else None
  }

  lemma KidsMakeTheTree(nodes: seq<Node>, kids: map<Label, Tree>)
    requires forall l :: KidIs(kids, l, KidAt(nodes, l))
    ensures TreeOf(Bag(nodes)) == Branch(kids)
  {
    var t := TreeOf(Bag(nodes));
    forall l ensures (l in t.kids <==> l in kids) && (l in kids ==> t.kids[l] == kids[l]) {
      assert KidIs(kids, l, KidAt(nodes, l));
      KidsOf(nodes, l);
    }
    assert t.kids == kids;
  }

  lemma PutKid(nodes: seq<Node>, l: Label, v: Value, m: Label)
    ensures KidAt(Put(nodes, l, v), m) == if m == l then Some(TreeOf(v)) else KidAt(nodes, m)
  {
    IndexOfPut(nodes, l, v, m);
  }

  lemma TreeOfPut(nodes: seq<Node>, l: Label, v: Value)
    ensures TreeOf(Bag(Put(nodes, l, v))) == Branch(Kids(TreeOf(Bag(nodes)))[l := TreeOf(v)])
  {
    var kids := Kids(TreeOf(Bag(nodes)))[l := TreeOf(v)];
    forall m ensures KidIs(kids, m, KidAt(Put(nodes, l, v), m)) {
      PutKid(nodes, l, v, m);
      KidsOf(nodes, m);
    }
    KidsMakeTheTree(Put(nodes, l, v), kids);
  }

  /** A write into a Bag is a write into its tree. */
  lemma {:induction false} TreeOfSet(nodes: seq<Node>, path: seq<Label>, v: Value)
    requires path != []
    ensures TreeOf(Bag(SetItem(nodes, path, v))) == SetAt(TreeOf(Bag(nodes)), path, TreeOf(v))
    decreases |path|
  {
    var l := path[0];
    KidsOf(nodes, l);
    if |path| == 1 {
      assert path[1..] == [];
      TreeOfPut(nodes, l, v);
    } else {
      var inner := SetItem(Below(nodes, l), path[1..], v);
      TreeOfPut(nodes, l, Bag(inner));
      TreeOfSet(Below(nodes, l), path[1..], v);
      BelowInTheTree(nodes, path, v);
    }
  }

  lemma BelowInTheTree(nodes: seq<Node>, path: seq<Label>, v: Value)
    requires |path| > 1
    ensures SetAt(TreeOf(Bag(Below(nodes, path[0]))), path[1..], TreeOf(v))
         == SetAt(Kid(TreeOf(Bag(nodes)), path[0]), path[1..], TreeOf(v))
  {
    var l := path[0];
    KidsOf(nodes, l);
    assert TreeOf(Bag([])) == EMPTY;
  }

  /** At the level the path ends, its label is worn once at most. */
  predicate WornOnce(nodes: seq<Node>, path: seq<Label>)
    requires path != []
    decreases |path|
  {
    var i := IndexOf(nodes, path[0]);
    i < |nodes| ==>
      if |path| == 1 then forall j :: i < j < |nodes| ==> nodes[j].name != path[0]
      else nodes[i].value.Bag? ==> WornOnce(nodes[i].value.nodes, path[1..])
  }

  lemma DelFromABag(nodes: seq<Node>, path: seq<Label>, i: nat)
    requires |path| > 1 && i == IndexOf(nodes, path[0]) < |nodes| && nodes[i].value.Bag?
    requires TreeOf(Bag(DelItem(nodes[i].value.nodes, path[1..]))) == DelAt(TreeOf(nodes[i].value), path[1..])
    ensures TreeOf(Bag(DelItem(nodes, path))) == DelAt(TreeOf(Bag(nodes)), path)
  {
    var inner := DelItem(nodes[i].value.nodes, path[1..]);
    assert DelItem(nodes, path) == Put(nodes, path[0], Bag(inner));
    TreeOfPut(nodes, path[0], Bag(inner));
    KidsOf(nodes, path[0]);
  }

  lemma DelFromALeaf(nodes: seq<Node>, path: seq<Label>)
    requires |path| > 1 && Has(nodes, path[0]) && !nodes[IndexOf(nodes, path[0])].value.Bag?
    ensures DelAt(TreeOf(Bag(nodes)), path) == TreeOf(Bag(nodes))
  {
    KidsOf(nodes, path[0]);
    var kids := Kids(TreeOf(Bag(nodes)));
    assert kids[path[0]].Leaf?;
    assert kids[path[0] := kids[path[0]]] == kids;
  }

  /** And so is a delete, where labels are worn once. */
  lemma {:induction false} TreeOfDel(nodes: seq<Node>, path: seq<Label>)
    requires path != [] && WornOnce(nodes, path)
    ensures TreeOf(Bag(DelItem(nodes, path))) == DelAt(TreeOf(Bag(nodes)), path)
    decreases |path|
  {
    var l, i := path[0], IndexOf(nodes, path[0]);
    KidsOf(nodes, l);
    if i < |nodes| {
      if |path| == 1 {
        TreeOfRemoval(nodes, l);
      } else if nodes[i].value.Bag? {
        TreeOfDel(nodes[i].value.nodes, path[1..]);
        DelFromABag(nodes, path, i);
      } else {
        DelFromALeaf(nodes, path);
      }
    }
  }

  lemma RemovalKid(nodes: seq<Node>, l: Label, m: Label)
    requires Has(nodes, l) && WornOnce(nodes, [l])
    ensures KidAt(DelItem(nodes, [l]), m) == if m == l then None else KidAt(nodes, m)
  {
    if m == l {
      IndexOfUnique(DelItem(nodes, [l]), l, |nodes| - 1);
    } else {
      DelLeavesOthers(nodes, [l], m);
    }
  }

  lemma TreeOfRemoval(nodes: seq<Node>, l: Label)
    requires Has(nodes, l) && WornOnce(nodes, [l])
    ensures TreeOf(Bag(DelItem(nodes, [l]))) == Branch(Kids(TreeOf(Bag(nodes))) - {l})
  {
    var kids := Kids(TreeOf(Bag(nodes))) - {l};
    forall m ensures KidIs(kids, m, KidAt(DelItem(nodes, [l]), m)) {
      RemovalKid(nodes, l, m);
      KidsOf(nodes, m);
    }
    KidsMakeTheTree(DelItem(nodes, [l]), kids);
  }

  /* ---------------- Bags whose labels are worn once ---------------- */

  /** At every level each label is worn once. */
  predicate Neat(v: Value)
    decreases v
  {
    v.Bag? ==>
      && (forall i, j :: 0 <= i < j < |v.nodes| ==> v.nodes[i].name != v.nodes[j].name)
      && (forall i :: 0 <= i < |v.nodes| ==> Neat(v.nodes[i].value))
  }

  lemma {:induction false} NeatIsWornOnce(nodes: seq<Node>, path: seq<Label>)
    requires path != [] && Neat(Bag(nodes))
    ensures WornOnce(nodes, path)
    decreases |path|
  {
    var i := IndexOf(nodes, path[0]);
    if i < |nodes| && |path| > 1 && nodes[i].value.Bag? {
      assert Neat(nodes[i].value);
      NeatIsWornOnce(nodes[i].value.nodes, path[1..]);
    }
  }

  lemma PutKeepsNeat(nodes: seq<Node>, l: Label, v: Value)
    requires Neat(Bag(nodes)) && Neat(v)
    ensures Neat(Bag(Put(nodes, l, v)))
  {
    var put, i := Put(nodes, l, v), IndexOf(nodes, l);
    forall j | 0 <= j < |put|
      ensures Neat(put[j].value) && (if j == i then put[j].name == l else put[j] == nodes[j] && put[j].name != l)
    {
      if j != i {
        assert Neat(nodes[j].value);
      }
    }
  }

  lemma {:induction false} SetKeepsNeat(nodes: seq<Node>, path: seq<Label>, v: Value)
    requires path != [] && Neat(Bag(nodes)) && Neat(v)
    ensures Neat(Bag(SetItem(nodes, path, v)))
    decreases |path|
  {
    var l, below := path[0], Below(nodes, path[0]);
    if |path| == 1 {
      PutKeepsNeat(nodes, l, v);
    } else {
      assert Has(nodes, l) ==> Neat(nodes[IndexOf(nodes, l)].value);
      assert Neat(Bag(below));
      SetKeepsNeat(below, path[1..], v);
      PutKeepsNeat(nodes, l, Bag(SetItem(below, path[1..], v)));
    }
  }

  lemma {:induction false} DelKeepsNeat(nodes: seq<Node>, path: seq<Label>)
    requires path != [] && Neat(Bag(nodes))
    ensures Neat(Bag(DelItem(nodes, path)))
    decreases |path|
  {
    var i := IndexOf(nodes, path[0]);
    if i < |nodes| {
      if |path| == 1 {
        RemovalKeepsNeat(nodes, i);
      } else if nodes[i].value.Bag? {
        assert Neat(nodes[i].value);
        DelKeepsNeat(nodes[i].value.nodes, path[1..]);
        PutKeepsNeat(nodes, path[0], Bag(DelItem(nodes[i].value.nodes, path[1..])));
      }
    }
  }

  lemma RemovalKeepsNeat(nodes: seq<Node>, i: nat)
    requires i < |nodes| && Neat(Bag(nodes))
    ensures Neat(Bag(nodes[..i] + nodes[i + 1..]))
  {
    var after := nodes[..i] + nodes[i + 1..];
    forall j | 0 <= j < |after| ensures after[j] == nodes[if j < i then j else j + 1] && Neat(after[j].value) {
      assert Neat(nodes[if j < i then j else j + 1].value);
    }
  }

  /** Bags of one tree answer every read alike, up to the order of nodes in what is read. */
  lemma {:induction false} OneTreeReadsAlike(nodes: seq<Node>, others: seq<Node>, path: seq<Label>)
    requires path != [] && TreeOf(Bag(nodes)) == TreeOf(Bag(others))
    ensures Find(nodes, path).Some? <==> Find(others, path).Some?
    ensures Find(nodes, path).Some? ==> TreeOf(Find(nodes, path).value) == TreeOf(Find(others, path).value)
    decreases |path|
  {
    KidsOf(nodes, path[0]);
    KidsOf(others, path[0]);
    var i, j := IndexOf(nodes, path[0]), IndexOf(others, path[0]);
    if i < |nodes| && |path| > 1 && nodes[i].value.Bag? && others[j].value.Bag? {
      OneTreeReadsAlike(nodes[i].value.nodes, others[j].value.nodes, path[1..]);
    }
  }
}
