/** The legacy Bag as a labelled tree: ordered nodes, each with a name, its
    attributes and a value that may itself be a Bag. */
module LegacyBag {
  import opened Wrappers

  type Label = string

  /** A clock is an integer count of one time unit. A naive date is a local clock;
      an aware one is its instant on the UTC clock together with its zone. */
  datatype Value =
    | Null
    | Scalar(n: int)
    | Naive(clock: int)
    | Aware(utc: int, zone: int)
    | Container(content: seq<int>)
    | Bag(nodes: seq<Node>)

  /** How a Bag reads the labels of a dotted path: it may keep the empty ones, or drop
      them; a path left with no label then names the empty one. */
  datatype Reading = KeepsEmpty | DropsEmpty

  /** What a process brings along: its own zone, as an offset from UTC, and its Bag. */
  datatype Site = Site(zone: int, reading: Reading)

  datatype Node = Node(name: Label, attrs: map<string, int>, value: Value)

  /** The position of the first node wearing the label; the length when there is none. */
  function IndexOf(nodes: seq<Node>, name: Label): (i: nat)
    ensures i <= |nodes|
    ensures i < |nodes| ==> nodes[i].name == name
    ensures forall j :: 0 <= j < i ==> nodes[j].name != name
  {
    if nodes == [] || nodes[0].name == name then 0 else 1 + IndexOf(nodes[1..], name)
  }

  predicate Has(nodes: seq<Node>, name: Label) {
    IndexOf(nodes, name) < |nodes|
  }

  function GetItem(nodes: seq<Node>, path: seq<Label>, default: Value): Value
    requires path != []
    decreases |path|
  {
    var i := IndexOf(nodes, path[0]);
    if i == |nodes| then default
    else if |path| == 1 then nodes[i].value
    else if nodes[i].value.Bag? then GetItem(nodes[i].value.nodes, path[1..], default)
    else default
  }

  /** The nodes a write below this label starts from: its own Bag's, or none. */
  function Below(nodes: seq<Node>, name: Label): seq<Node> {
    var i := IndexOf(nodes, name);
    if i < |nodes| && nodes[i].value.Bag? then nodes[i].value.nodes else []
  }

  /** One label given a value: in place when it is there, at the end when it is not. */
  function Put(nodes: seq<Node>, name: Label, value: Value): seq<Node> {
    var i := IndexOf(nodes, name);
    if i < |nodes| then nodes[i := nodes[i].(value := value)]
    else nodes + [Node(name, map[], value)]
  }

  function SetItem(nodes: seq<Node>, path: seq<Label>, value: Value): seq<Node>
    requires path != []
    decreases |path|
  {
    Put(nodes, path[0],
        if |path| == 1 then value
        else Bag(SetItem(Below(nodes, path[0]), path[1..], value)))
  }

  function DelItem(nodes: seq<Node>, path: seq<Label>): seq<Node>
    requires path != []
    decreases |path|
  {
    var i := IndexOf(nodes, path[0]);
    if i == |nodes| then nodes
    else if |path| == 1 then nodes[..i] + nodes[i + 1..]
    else if nodes[i].value.Bag? then
      nodes[i := nodes[i].(value := Bag(DelItem(nodes[i].value.nodes, path[1..])))]
    else nodes
  }

  /* ---------------- what stands at a path ---------------- */

  function Find(nodes: seq<Node>, path: seq<Label>): Option<Value>
    requires path != []
    decreases |path|
  {
    var i := IndexOf(nodes, path[0]);
    if i == |nodes| then None
    else if |path| == 1 then Some(nodes[i].value)
    else if nodes[i].value.Bag? then Find(nodes[i].value.nodes, path[1..])
    else None
  }

  function Or(found: Option<Value>, default: Value): Value {
    match found
    case Some(v) => v
    case None => default
  }

  lemma {:induction false} GetIsFind(nodes: seq<Node>, path: seq<Label>, default: Value)
    requires path != []
    ensures GetItem(nodes, path, default) == Or(Find(nodes, path), default)
    decreases |path|
  {
    var i := IndexOf(nodes, path[0]);
    if i < |nodes| && |path| > 1 && nodes[i].value.Bag? {
      GetIsFind(nodes[i].value.nodes, path[1..], default);
    }
  }

  /** A write changes nothing exactly where the value stands already. */
  lemma {:induction false} SetChangesNothing(nodes: seq<Node>, path: seq<Label>, value: Value)
    requires path != []
    ensures SetItem(nodes, path, value) == nodes <==> Find(nodes, path) == Some(value)
    decreases |path|
  {
    var i := IndexOf(nodes, path[0]);
    if i == |nodes| {
      assert |SetItem(nodes, path, value)| == |nodes| + 1;
    } else if |path| == 1 {
      assert SetItem(nodes, path, value)[i].value == value;
    } else {
      var inner := SetItem(Below(nodes, path[0]), path[1..], value);
      assert SetItem(nodes, path, value)[i].value == Bag(inner);
      if nodes[i].value.Bag? {
        SetChangesNothing(nodes[i].value.nodes, path[1..], value);
        assert inner == nodes[i].value.nodes ==> SetItem(nodes, path, value) == nodes;
      }
    }
  }

  /** A delete changes nothing exactly where nothing stands. */
  lemma {:induction false} DelChangesNothing(nodes: seq<Node>, path: seq<Label>)
    requires path != []
    ensures DelItem(nodes, path) == nodes <==> Find(nodes, path) == None
    decreases |path|
  {
    var i := IndexOf(nodes, path[0]);
    if i < |nodes| {
      if |path| == 1 {
        assert |DelItem(nodes, path)| == |nodes| - 1;
      } else if nodes[i].value.Bag? {
        var inner := DelItem(nodes[i].value.nodes, path[1..]);
        assert DelItem(nodes, path)[i].value == Bag(inner);
        DelChangesNothing(nodes[i].value.nodes, path[1..]);
        assert inner == nodes[i].value.nodes ==> DelItem(nodes, path) == nodes;
      }
    }
  }

  /* ---------------- the date boundary ---------------- */

  /** The value as the legacy side sees it: Bags rebuilt node by node, every aware
      date a naive one on the clock of the site's zone. */
  function Legacy(v: Value, site: Site): Value
    decreases v
  {
    match v
    case Bag(nodes) => Bag(seq(|nodes|, i requires 0 <= i < |nodes| =>
        Node(nodes[i].name, nodes[i].attrs, Legacy(nodes[i].value, site))))
    case Aware(utc, _) => Naive(utc + site.zone)
    case _ => v
  }

  function LegacyNodes(nodes: seq<Node>, site: Site): seq<Node> {
    seq(|nodes|, i requires 0 <= i < |nodes| =>
      Node(nodes[i].name, nodes[i].attrs, Legacy(nodes[i].value, site)))
  }

  /** The value as the wire receives it: a bare naive date gets the local zone, its clock kept. */
  function Wire(v: Value, site: Site): Value {
    match v
    case Naive(clock) => Aware(clock - site.zone, site.zone)
    case _ => v
  }

  lemma {:induction false} LegacyIdempotent(v: Value, site: Site)
    ensures Legacy(Legacy(v, site), site) == Legacy(v, site)
    decreases v
  {
    match v
    case Bag(nodes) =>
      forall i | 0 <= i < |nodes|
        ensures Legacy(Legacy(nodes[i].value, site), site) == Legacy(nodes[i].value, site)
      {
        LegacyIdempotent(nodes[i].value, site);
      }
    case _ =>
  }

  lemma LegacyAbsorbsWire(v: Value, site: Site)
    ensures Legacy(Wire(v, site), site) == Legacy(v, site)
  {
  }

  predicate IsDate(v: Value) {
    v.Naive? || v.Aware?
  }

  /** The instant a date names at a site, where a naive one is on the site's clock. */
  function InstantOf(v: Value, site: Site): int
    requires IsDate(v)
  {
    if v.Naive? then v.clock - site.zone else v.utc
  }

  /** A date sent by one site is read by any other on that site's own clock; and two dates
      read alike exactly if they name one instant, whatever zones they carry. */
  lemma OneInstantReadsAlike(v: Value, w: Value, from: Site, at: Site)
    requires IsDate(v) && IsDate(w)
    ensures Legacy(Wire(v, from), at) == Naive(InstantOf(v, from) + at.zone)
    ensures Legacy(Wire(v, from), at) == Legacy(Wire(w, from), at) <==> InstantOf(v, from) == InstantOf(w, from)
  {
  }

  function Names(nodes: seq<Node>): seq<Label> {
    seq(|nodes|, i requires 0 <= i < |nodes| => nodes[i].name)
  }

  function AttrsAt(nodes: seq<Node>, path: seq<Label>): Option<map<string, int>>
    requires path != []
    decreases |path|
  {
    var i := IndexOf(nodes, path[0]);
    if i == |nodes| then None
    else if |path| == 1 then Some(nodes[i].attrs)
    else if nodes[i].value.Bag? then AttrsAt(nodes[i].value.nodes, path[1..])
    else None
  }

  /** What stands at a place of the converted Bag, given what stood there. */
  predicate LegacyOf(v: Value, v': Value, site: Site) {
    match v
    case Aware(utc, _) => v' == Naive(utc + site.zone)
    case Bag(nodes) => v'.Bag? && Names(v'.nodes) == Names(nodes)
    case _ => v' == v
  }

  /** The conversion moves aware dates and nothing else: at every path stands what stood
      there, with its attributes, and the nodes of every Bag are in the same order. */
  lemma {:induction false} LegacyMovesOnlyDates(nodes: seq<Node>, path: seq<Label>, site: Site)
    requires path != []
    ensures AttrsAt(LegacyNodes(nodes, site), path) == AttrsAt(nodes, path)
    ensures Find(LegacyNodes(nodes, site), path).Some? == Find(nodes, path).Some?
    ensures Find(nodes, path).Some? ==>
              LegacyOf(Find(nodes, path).value, Find(LegacyNodes(nodes, site), path).value, site)
    decreases |path|
  {
    var i := IndexOf(nodes, path[0]);
    IndexOfLegacy(nodes, path[0], site);
    if i < |nodes| && nodes[i].value.Bag? {
      var below := nodes[i].value.nodes;
      assert LegacyNodes(nodes, site)[i].value == Bag(LegacyNodes(below, site));
      if |path| == 1 {
        assert Names(LegacyNodes(below, site)) == Names(below);
      } else {
        LegacyMovesOnlyDates(below, path[1..], site);
      }
    }
  }

  /** A write keeps the order and the attributes of the nodes there were; a new node comes
      last, without attributes. So it does in the Bag below. */
  lemma SetKeepsNodes(nodes: seq<Node>, path: seq<Label>, value: Value)
    requires path != []
    ensures var after, i := SetItem(nodes, path, value), IndexOf(nodes, path[0]);
            && Names(after) == (if i < |nodes| then Names(nodes) else Names(nodes) + [path[0]])
            && (forall j :: 0 <= j < |nodes| ==> after[j].attrs == nodes[j].attrs && (j != i ==> after[j] == nodes[j]))
            && (i == |nodes| ==> after[i].attrs == map[])
            && (|path| > 1 ==> after[i].value == Bag(SetItem(Below(nodes, path[0]), path[1..], value)))
  {
  }

  lemma IndexOfLegacy(nodes: seq<Node>, name: Label, site: Site)
    ensures IndexOf(LegacyNodes(nodes, site), name) == IndexOf(nodes, name)
  {
    IndexOfUnique(LegacyNodes(nodes, site), name, IndexOf(nodes, name));
  }

  lemma IndexOfUnique(nodes: seq<Node>, name: Label, i: nat)
    requires i <= |nodes|
    requires i < |nodes| ==> nodes[i].name == name
    requires forall j :: 0 <= j < i ==> nodes[j].name != name
    ensures IndexOf(nodes, name) == i
  {
  }

  lemma {:induction false} LegacyGetItem(nodes: seq<Node>, path: seq<Label>, default: Value, site: Site)
    requires path != []
    ensures Legacy(GetItem(nodes, path, default), site)
         == GetItem(LegacyNodes(nodes, site), path, Legacy(default, site))
    decreases |path|
  {
    var i := IndexOf(nodes, path[0]);
    IndexOfLegacy(nodes, path[0], site);
    if i < |nodes| && |path| > 1 && nodes[i].value.Bag? {
      LegacyGetItem(nodes[i].value.nodes, path[1..], default, site);
    }
  }

  lemma LegacyPut(nodes: seq<Node>, name: Label, value: Value, site: Site)
    ensures LegacyNodes(Put(nodes, name, value), site) == Put(LegacyNodes(nodes, site), name, Legacy(value, site))
    ensures Below(LegacyNodes(nodes, site), name) == LegacyNodes(Below(nodes, name), site)
  {
    IndexOfLegacy(nodes, name, site);
  }

  lemma {:induction false} LegacySetItem(nodes: seq<Node>, path: seq<Label>, value: Value, site: Site)
    requires path != []
    ensures LegacyNodes(SetItem(nodes, path, value), site)
         == SetItem(LegacyNodes(nodes, site), path, Legacy(value, site))
    decreases |path|
  {
    var below := Below(nodes, path[0]);
    if |path| == 1 {
      LegacyPut(nodes, path[0], value, site);
    } else {
      LegacySetItem(below, path[1..], value, site);
      LegacyPut(nodes, path[0], Bag(SetItem(below, path[1..], value)), site);
    }
  }

  lemma LegacyRemoval(nodes: seq<Node>, i: nat, site: Site)
    requires i < |nodes|
    ensures LegacyNodes(nodes[..i] + nodes[i + 1..], site)
         == LegacyNodes(nodes, site)[..i] + LegacyNodes(nodes, site)[i + 1..]
  {
  }

  lemma {:induction false} LegacyDelItem(nodes: seq<Node>, path: seq<Label>, site: Site)
    requires path != []
    ensures LegacyNodes(DelItem(nodes, path), site) == DelItem(LegacyNodes(nodes, site), path)
    decreases |path|
  {
    var i := IndexOf(nodes, path[0]);
    IndexOfLegacy(nodes, path[0], site);
    if i < |nodes| {
      if |path| == 1 {
        LegacyRemoval(nodes, i, site);
      } else if nodes[i].value.Bag? {
        LegacyDelItem(nodes[i].value.nodes, path[1..], site);
      }
    }
  }

  /* ---------------- reads after writes ---------------- */

  /** One of the two paths leads through the other. */
  predicate Comparable(p: seq<Label>, q: seq<Label>) {
    p <= q || q <= p
  }

  lemma IndexOfPut(nodes: seq<Node>, name: Label, value: Value, other: Label)
    ensures Has(Put(nodes, name, value), name)
    ensures Put(nodes, name, value)[IndexOf(Put(nodes, name, value), name)].value == value
    ensures other != name ==> Has(Put(nodes, name, value), other) == Has(nodes, other)
    ensures other != name && Has(nodes, other) ==>
              Put(nodes, name, value)[IndexOf(Put(nodes, name, value), other)] == nodes[IndexOf(nodes, other)]
  {
    var put := Put(nodes, name, value);
    IndexOfUnique(put, name, IndexOf(nodes, name));
    if other != name {
      if Has(nodes, other) {
        IndexOfUnique(put, other, IndexOf(nodes, other));
      } else {
        IndexOfUnique(put, other, |put|);
      }
    }
  }

  lemma {:induction false} GetAfterSet(nodes: seq<Node>, path: seq<Label>, value: Value, default: Value)
    requires path != []
    ensures GetItem(SetItem(nodes, path, value), path, default) == value
    decreases |path|
  {
    var inner := if |path| == 1 then value else Bag(SetItem(Below(nodes, path[0]), path[1..], value));
    IndexOfPut(nodes, path[0], inner, path[0]);
    if |path| > 1 {
      GetAfterSet(Below(nodes, path[0]), path[1..], value, default);
    }
  }

  lemma ComparableTails(p: seq<Label>, q: seq<Label>)
    requires p != [] && q != [] && p[0] == q[0] && !Comparable(p, q)
    ensures |p| > 1 && |q| > 1 && !Comparable(p[1..], q[1..])
  {
    assert p == [p[0]] + p[1..] && q == [q[0]] + q[1..];
  }

  /** A path of several labels is read in what lies below the first one. */
  lemma GetItemBelow(nodes: seq<Node>, path: seq<Label>, default: Value)
    requires |path| > 1
    ensures GetItem(nodes, path, default) == GetItem(Below(nodes, path[0]), path[1..], default)
  {
  }

  lemma BelowPut(nodes: seq<Node>, name: Label, inner: seq<Node>)
    ensures Below(Put(nodes, name, Bag(inner)), name) == inner
  {
    IndexOfPut(nodes, name, Bag(inner), name);
  }

  lemma {:induction false} GetAfterSetElsewhere(nodes: seq<Node>, path: seq<Label>, value: Value,
                                                other: seq<Label>, default: Value)
    requires path != [] && other != [] && !Comparable(path, other)
    ensures GetItem(SetItem(nodes, path, value), other, default) == GetItem(nodes, other, default)
    decreases |path|
  {
    if path[0] == other[0] {
      ComparableTails(path, other);
      var below := Below(nodes, path[0]);
      BelowPut(nodes, path[0], SetItem(below, path[1..], value));
      GetAfterSetElsewhere(below, path[1..], value, other[1..], default);
      GetItemBelow(SetItem(nodes, path, value), other, default);
      GetItemBelow(nodes, other, default);
    } else {
      GetAfterPutElsewhere(nodes, path[0],
        if |path| == 1 then value else Bag(SetItem(Below(nodes, path[0]), path[1..], value)), other, default);
    }
  }

  lemma GetAfterPutElsewhere(nodes: seq<Node>, name: Label, value: Value, other: seq<Label>, default: Value)
    requires other != [] && other[0] != name
    ensures GetItem(Put(nodes, name, value), other, default) == GetItem(nodes, other, default)
  {
    IndexOfPut(nodes, name, value, other[0]);
  }

  lemma BelowAfterDel(nodes: seq<Node>, path: seq<Label>)
    requires |path| > 1
    ensures Below(DelItem(nodes, path), path[0])
         == if Below(nodes, path[0]) == [] then [] else DelItem(Below(nodes, path[0]), path[1..])
  {
    var i := IndexOf(nodes, path[0]);
    if i < |nodes| {
      IndexOfUnique(DelItem(nodes, path), path[0], i);
    }
  }

  lemma {:induction false} GetAfterDelElsewhere(nodes: seq<Node>, path: seq<Label>,
                                                other: seq<Label>, default: Value)
    requires path != [] && other != [] && !Comparable(path, other)
    ensures GetItem(DelItem(nodes, path), other, default) == GetItem(nodes, other, default)
    decreases |path|
  {
    if path[0] == other[0] {
      ComparableTails(path, other);
      BelowAfterDel(nodes, path);
      GetAfterDelElsewhere(Below(nodes, path[0]), path[1..], other[1..], default);
      GetItemBelow(DelItem(nodes, path), other, default);
      GetItemBelow(nodes, other, default);
    } else {
      GetAfterDelOfAnother(nodes, path, other, default);
    }
  }

  lemma DelLeavesOthers(nodes: seq<Node>, path: seq<Label>, other: Label)
    requires path != [] && path[0] != other
    ensures var after := DelItem(nodes, path);
            Has(after, other) == Has(nodes, other) &&
            (Has(nodes, other) ==> after[IndexOf(after, other)] == nodes[IndexOf(nodes, other)])
  {
    var i := IndexOf(nodes, path[0]);
    var j := IndexOf(nodes, other);
    if i < |nodes| {
      IndexOfUnique(DelItem(nodes, path), other, if |path| == 1 && j > i then j - 1 else j);
    }
  }

  lemma GetAfterDelOfAnother(nodes: seq<Node>, path: seq<Label>, other: seq<Label>, default: Value)
    requires path != [] && other != [] && path[0] != other[0]
    ensures GetItem(DelItem(nodes, path), other, default) == GetItem(nodes, other, default)
  {
    DelLeavesOthers(nodes, path, other[0]);
  }
}
