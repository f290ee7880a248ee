/** The dictionary as a form of one dotted Bag: when a set, a delete, a get and the
    snapshot on the commander's dictionary agree with the same on the local Bag. */
module DottedBag {
  import opened Wrappers
  import opened LegacyBag
  import opened GlobalPaths
  import opened GlobalStore

  /* ---------------- the one dotted Bag ---------------- */

  /** The Bag whose top-level nodes are exactly the entries of the dictionary. */
  ghost predicate Represents(nodes: seq<Node>, d: Dict) {
    && (forall i, j :: 0 <= i < j < |nodes| ==> nodes[i].name != nodes[j].name)
    && (forall i :: 0 <= i < |nodes| ==> nodes[i].attrs == map[])
    && (forall i :: 0 <= i < |nodes| ==> nodes[i].name in d && d[nodes[i].name] == nodes[i].value)
    && (forall k :: k in d ==> Has(nodes, k))
  }

  /** The local Bag and the dictionary say the same, dates apart. */
  ghost predicate Faithful(nodes: seq<Node>, d: Dict, site: Site) {
    Represents(LegacyNodes(nodes, site), LegacyDict(d, site))
  }

  lemma RepresentsPut(nodes: seq<Node>, d: Dict, key: string, v: Value)
    requires Represents(nodes, d)
    ensures Represents(Put(nodes, key, v), d[key := v])
  {
    var put, i := Put(nodes, key, v), IndexOf(nodes, key);
    forall j | 0 <= j < |put|
      ensures put[j].attrs == map[] && (if j == i then put[j].name == key && put[j].value == v else put[j] == nodes[j])
      ensures put[j].name in d[key := v] && d[key := v][put[j].name] == put[j].value
    {
      if j != i {
        assert nodes[j].name in d && nodes[j].name != key;
      }
    }
    forall k | k in d[key := v] ensures Has(put, k) {
      IndexOfPut(nodes, key, v, k);
      if k != key {
        assert Has(nodes, k);
      }
    }
  }

  lemma BelowIsBagUnder(nodes: seq<Node>, d: Dict, key: string)
    requires Represents(nodes, d)
    ensures Below(nodes, key) == BagUnder(d, key)
    ensures Has(nodes, key) <==> key in d
    ensures key in d ==> nodes[IndexOf(nodes, key)].value == d[key]
  {
    if key in d {
      assert Has(nodes, key);
    }
  }

  lemma RepresentsRemove(nodes: seq<Node>, d: Dict, key: string)
    requires Represents(nodes, d)
    ensures Represents(DelItem(nodes, [key]), d - {key})
  {
    var i := IndexOf(nodes, key);
    if i == |nodes| {
      assert !Has(nodes, key);
      assert d - {key} == d;
    } else {
      NodesLeft(nodes, d, i);
      forall k | k in d - {key} ensures Has(DelItem(nodes, [key]), k) {
        assert Has(nodes, k);
        DelLeavesOthers(nodes, [key], k);
      }
    }
  }

  /** With one node taken out the others are still there, their names distinct. */
  lemma NodesLeft(nodes: seq<Node>, d: Dict, i: nat)
    requires Represents(nodes, d) && i < |nodes|
    ensures var after, left := nodes[..i] + nodes[i + 1..], d - {nodes[i].name};
            && (forall j, k :: 0 <= j < k < |after| ==> after[j].name != after[k].name)
            && (forall j :: 0 <= j < |after| ==> after[j].attrs == map[])
            && (forall j :: 0 <= j < |after| ==> after[j].name in left && left[after[j].name] == after[j].value)
  {
    var after := nodes[..i] + nodes[i + 1..];
    forall j | 0 <= j < |after|
      ensures after[j] == nodes[if j < i then j else j + 1] && after[j].name != nodes[i].name
      ensures after[j].name in d && d[after[j].name] == after[j].value && after[j].attrs == map[]
    {
      var n := nodes[if j < i then j else j + 1];
      assert n.name in d;
    }
  }

  /* ---------------- writes under a list of labels ---------------- */

  /** The dictionary taken for a Bag of its own. */
  function DictSet(d: Dict, path: seq<Label>, v: Value): Dict
    requires path != []
  {
    d[path[0] := if |path| == 1 then v else Bag(SetItem(BagUnder(d, path[0]), path[1..], v))]
  }

  function DictDel(d: Dict, path: seq<Label>): Dict
    requires path != []
  {
    if |path| == 1 then d - {path[0]}
    else if path[0] in d && d[path[0]].Bag? then d[path[0] := Bag(DelItem(d[path[0]].nodes, path[1..]))]
    else d
  }

  function DictFind(d: Dict, path: seq<Label>): Option<Value>
    requires path != []
  {
    if path[0] !in d then None
    else if |path| == 1 then Some(d[path[0]])
    else if d[path[0]].Bag? then Find(d[path[0]].nodes, path[1..])
    else None
  }

  lemma AdapterWrites(d: Dict, path: string, v: Value, site: Site)
    ensures PlainSet(d, path, v, site) == DictSet(d, AdapterPath(path, site), v)
    ensures DeleteIn(d, path, site) == DictDel(d, AdapterPath(path, site))
  {
    if Rest(path) != "" {
      assert AdapterPath(path, site)[1..] == Labels(Rest(path), site);
    }
  }

  lemma RepresentsSet(nodes: seq<Node>, d: Dict, path: seq<Label>, v: Value)
    requires Represents(nodes, d) && path != []
    ensures Represents(SetItem(nodes, path, v), DictSet(d, path, v))
  {
    BelowIsBagUnder(nodes, d, path[0]);
    RepresentsPut(nodes, d, path[0], if |path| == 1 then v else Bag(SetItem(BagUnder(d, path[0]), path[1..], v)));
  }

  lemma RepresentsDelete(nodes: seq<Node>, d: Dict, path: seq<Label>)
    requires Represents(nodes, d) && path != []
    ensures Represents(DelItem(nodes, path), DictDel(d, path))
  {
    if |path| == 1 {
      assert path == [path[0]];
      RepresentsRemove(nodes, d, path[0]);
    } else {
      RepresentsDeleteBelow(nodes, d, path[0], path[1..]);
      assert path == [path[0]] + path[1..];
    }
  }

  lemma RepresentsFind(nodes: seq<Node>, d: Dict, path: seq<Label>)
    requires Represents(nodes, d) && path != []
    ensures Find(nodes, path) == DictFind(d, path)
  {
    BelowIsBagUnder(nodes, d, path[0]);
  }

  lemma RepresentsDeleteBelow(nodes: seq<Node>, d: Dict, key: string, labels: seq<Label>)
    requires Represents(nodes, d) && labels != []
    ensures Represents(DelItem(nodes, [key] + labels),
                       if key in d && d[key].Bag? then d[key := Bag(DelItem(d[key].nodes, labels))] else d)
  {
    BelowIsBagUnder(nodes, d, key);
    assert ([key] + labels)[1..] == labels;
    if key in d && d[key].Bag? {
      RepresentsPut(nodes, d, key, Bag(DelItem(d[key].nodes, labels)));
    }
  }

  lemma RepresentsOne(nodes: seq<Node>, d: Dict, e: Dict)
    requires Represents(nodes, d) && Represents(nodes, e)
    ensures d == e
  {
    forall k ensures k in d <==> k in e {
      assert k in d ==> Has(nodes, k);
      assert k in e ==> Has(nodes, k);
    }
    forall k | k in d ensures d[k] == e[k] {
      assert Has(nodes, k);
    }
  }

  lemma DictSetChangesNothing(d: Dict, path: seq<Label>, v: Value)
    requires path != []
    ensures DictSet(d, path, v) == d <==> DictFind(d, path) == Some(v)
  {
    var k := path[0];
    assert DictSet(d, path, v) == d ==> k in d && DictSet(d, path, v)[k] == d[k];
    if |path| > 1 && k in d && d[k].Bag? {
      SetChangesNothing(d[k].nodes, path[1..], v);
    }
  }

  lemma DictDelChangesNothing(d: Dict, path: seq<Label>)
    requires path != []
    ensures DictDel(d, path) == d <==> DictFind(d, path) == None
  {
    var k := path[0];
    if k !in d {
      assert d - {k} == d;
    } else if |path| > 1 && d[k].Bag? {
      DelChangesNothing(d[k].nodes, path[1..]);
      assert DictDel(d, path)[k] == Bag(DelItem(d[k].nodes, path[1..]));
    }
  }

  /** Writes that begin with different keys agree only where neither does anything. */
  lemma WritesApart(d: Dict, p: seq<Label>, q: seq<Label>, v: Value)
    requires p != [] && q != [] && p[0] != q[0]
    ensures DictSet(d, p, v) == DictSet(d, q, v) <==> DictSet(d, p, v) == d && DictSet(d, q, v) == d
    ensures DictDel(d, p) == DictDel(d, q) <==> DictDel(d, p) == d && DictDel(d, q) == d
  {
    var a, b, k, l := DictSet(d, p, v), DictSet(d, q, v), p[0], q[0];
    assert l !in d ==> l !in a;
    assert l in d ==> a[l] == d[l];
    if a == b {
      assert l in b && b == d[l := b[l]];
      assert b == d;
    }
    var e, f := DictDel(d, p), DictDel(d, q);
    assert l in e <==> l in d;
    assert l in d ==> e[l] == d[l];
    if e == f {
      assert f == d;
    }
  }

  lemma NotInsideItself(v: Value, i: nat)
    requires v.Bag? && i < |v.nodes|
    ensures v.nodes[i].value != v
  {
  }

  /** A write that ends at a key and one that ends at an empty label below it never agree. */
  lemma WritesNested(d: Dict, k: string, v: Value)
    ensures DictSet(d, [k], v) != DictSet(d, [k, ""], v)
    ensures !(DictFind(d, [k]) == Some(v) && DictFind(d, [k, ""]) == Some(v))
    ensures DictDel(d, [k]) == DictDel(d, [k, ""]) <==> k !in d
  {
    assert [k, ""][1..] == [""];
    var inner := SetItem(BagUnder(d, k), [""], v);
    IndexOfPut(BagUnder(d, k), "", v, "");
    var i := IndexOf(inner, "");
    NotInsideItself(Bag(inner), i);
    assert DictSet(d, [k], v)[k] == v && DictSet(d, [k, ""], v)[k] == Bag(inner);
    if DictFind(d, [k, ""]) == Some(v) {
      NotInsideItself(d[k], IndexOf(d[k].nodes, ""));
    }
    if k !in d {
      assert d - {k} == d;
    } else {
      assert k in DictDel(d, [k, ""]) && k !in DictDel(d, [k]);
    }
  }

  /* ---------------- the four operations ---------------- */

  /** Both paths lead to the value. */
  predicate BothHold(d: Dict, path: string, v: Value, site: Site) {
    DictFind(d, Labels(path, site)) == Some(v) && DictFind(d, AdapterPath(path, site)) == Some(v)
  }

  predicate NeitherThere(d: Dict, path: string, site: Site) {
    DictFind(d, Labels(path, site)) == None && DictFind(d, AdapterPath(path, site)) == None
  }

  lemma WritesAgree(d: Dict, path: string, v: Value, site: Site)
    ensures DictSet(d, Labels(path, site), v) == DictSet(d, AdapterPath(path, site), v)
       <==> ReadAlike(path, site) || BothHold(d, path, v, site)
    ensures DictDel(d, Labels(path, site)) == DictDel(d, AdapterPath(path, site))
       <==> ReadAlike(path, site) || NeitherThere(d, path, site)
  {
    var l, a := Labels(path, site), AdapterPath(path, site);
    AdapterReadsLikeBag(path, site);
    if !ReadAlike(path, site) {
      if Nested(path, site) {
        WritesNested(d, Key(path), v);
      } else {
        assert a[0] == "" && l[0] != "";
        WritesApart(d, l, a, v);
        DictSetChangesNothing(d, l, v);
        DictSetChangesNothing(d, a, v);
        DictDelChangesNothing(d, l);
        DictDelChangesNothing(d, a);
      }
    }
  }

  /** After a write to the local Bag and the same write to the dictionary, by either
      road, the two still say the same exactly if the path is read alike, or if both
      readings of it lead to that very value already. */
  lemma SetIsFaithful(nodes: seq<Node>, d: Dict, path: string, v: Value, site: Site)
    requires Faithful(nodes, d, site)
    ensures Faithful(SetItem(nodes, Labels(path, site), Legacy(v, site)), DirectSet(d, path, v, site), site)
       <==> ReadAlike(path, site) || BothHold(LegacyDict(d, site), path, Legacy(v, site), site)
    ensures Faithful(SetItem(nodes, Labels(path, site), Legacy(v, site)), BlockSet(d, path, v, site), site)
       <==> ReadAlike(path, site) || BothHold(LegacyDict(d, site), path, Legacy(v, site), site)
  {
    var l, face, w := Labels(path, site), LegacyDict(d, site), Legacy(v, site);
    LegacySetItem(nodes, l, w, site);
    LegacyIdempotent(v, site);
    DirectSetMeans(d, path, v, site);
    BlockSetMeans(d, path, v, site);
    AdapterWrites(face, path, w, site);
    RepresentsSet(LegacyNodes(nodes, site), face, l, w);
    WritesAgree(face, path, w, site);
    OnlyThat(SetItem(LegacyNodes(nodes, site), l, w), DictSet(face, l, w), PlainSet(face, path, w, site));
  }

  lemma OnlyThat(nodes: seq<Node>, d: Dict, e: Dict)
    requires Represents(nodes, d)
    ensures Represents(nodes, e) <==> d == e
  {
    if Represents(nodes, e) {
      RepresentsOne(nodes, d, e);
    }
  }

  /** After a delete they say the same exactly if the path is read alike, or if neither
      reading of it leads anywhere. */
  lemma DeleteIsFaithful(nodes: seq<Node>, d: Dict, path: string, site: Site)
    requires Faithful(nodes, d, site)
    ensures Faithful(DelItem(nodes, Labels(path, site)), DeleteIn(d, path, site), site)
       <==> ReadAlike(path, site) || NeitherThere(LegacyDict(d, site), path, site)
  {
    var l, face := Labels(path, site), LegacyDict(d, site);
    LegacyDelItem(nodes, l, site);
    DeleteMeans(d, path, site);
    AdapterWrites(face, path, Null, site);
    RepresentsDelete(LegacyNodes(nodes, site), face, l);
    WritesAgree(face, path, Null, site);
    OnlyThat(DelItem(LegacyNodes(nodes, site), l), DictDel(face, l), DeleteIn(face, path, site));
  }

  /** The read gets as far as a Bag to look into, or as the key it names. */
  predicate Reaches(d: Dict, path: string) {
    Key(path) in d && (Rest(path) == "" || d[Key(path)].Bag?)
  }

  /** What has to stand in the dictionary, seen from the legacy side, for a get to be
      answered alike. On a path read alike only the default matters. Where one reading
      ends at the key and the other at an empty label below it, what stands at the key
      must be what the other falls back on. Behind a leading dot the two read different
      places, and what is found there must agree. */
  predicate AnswersAgree(face: Dict, path: string, default: Value, site: Site) {
    var key, fallback := Key(path), Legacy(default, site);
    if ReadAlike(path, site) then Reaches(face, path) || fallback == default
    else if Nested(path, site) then
      if key !in face then fallback == default
      else if Reaches(face, path) then !Has(BagUnder(face, key), "") && fallback == face[key]
      else face[key] == default
    else
      Or(DictFind(face, Labels(path, site)), fallback) ==
      if Reaches(face, path) then Or(Find(BagUnder(face, ""), Labels(path, site)), fallback) else default
  }

  lemma DictionaryAnswers(d: Dict, path: string, default: Value, site: Site)
    ensures ReadIn(d, path, default, site) ==
            if Reaches(LegacyDict(d, site), path)
            then Or(DictFind(LegacyDict(d, site), AdapterPath(path, site)), Legacy(default, site))
            else default
  {
    ReadSeesLegacyFace(d, path, default, site);
    var face := LegacyDict(d, site);
    if Rest(path) != "" {
      assert AdapterPath(path, site)[1..] == Labels(Rest(path), site);
      if Reaches(face, path) {
        GetIsFind(face[Key(path)].nodes, Labels(Rest(path), site), Legacy(default, site));
      }
    }
  }

  lemma NestedAnswers(face: Dict, key: string)
    ensures DictFind(face, [key]) == if key in face then Some(face[key]) else None
    ensures DictFind(face, [key, ""]).Some? <==> Has(BagUnder(face, key), "")
    ensures DictFind(face, [key, ""]).Some? ==> key in face && DictFind(face, [key, ""]) != Some(face[key])
  {
    assert [key, ""][1..] == [""];
    if key in face && face[key].Bag? && Has(face[key].nodes, "") {
      NotInsideItself(face[key], IndexOf(face[key].nodes, ""));
    }
  }

  /** The two backings answer a get alike exactly under this condition, on every path. */
  lemma GetIsFaithful(nodes: seq<Node>, d: Dict, path: string, default: Value, site: Site)
    requires Faithful(nodes, d, site)
    ensures Legacy(GetItem(nodes, Labels(path, site), default), site) == ReadIn(d, path, default, site)
       <==> AnswersAgree(LegacyDict(d, site), path, default, site)
  {
    var l, a, face, fallback := Labels(path, site), AdapterPath(path, site), LegacyDict(d, site), Legacy(default, site);
    LegacyGetItem(nodes, l, default, site);
    GetIsFind(LegacyNodes(nodes, site), l, fallback);
    RepresentsFind(LegacyNodes(nodes, site), face, l);
    DictionaryAnswers(d, path, default, site);
    AdapterReadsLikeBag(path, site);
    AnswersCompared(face, path, default, site);
  }

  lemma AnswersCompared(face: Dict, path: string, default: Value, site: Site)
    ensures Or(DictFind(face, Labels(path, site)), Legacy(default, site)) ==
            (if Reaches(face, path) then Or(DictFind(face, AdapterPath(path, site)), Legacy(default, site)) else default)
       <==> AnswersAgree(face, path, default, site)
  {
    var l, a := Labels(path, site), AdapterPath(path, site);
    AdapterReadsLikeBag(path, site);
    NestedAnswers(face, Key(path));
    if ReadAlike(path, site) {
      if !Reaches(face, path) {
        UnreachedIsNotFound(face, path, site);
      }
    } else if !Nested(path, site) {
      assert a[1..] == l;
    }
  }

  lemma UnreachedIsNotFound(face: Dict, path: string, site: Site)
    requires !Reaches(face, path)
    ensures DictFind(face, AdapterPath(path, site)) == None
  {
  }

  /** A store with one key, and a path with one dot that the two read differently. */
  lemma OneKeyOneDot(site: Site)
    ensures var nodes, d := [Node("k", map[], Scalar(1))], map["k" := Scalar(1)];
            var path := if site.reading == KeepsEmpty then "k." else ".k";
            && Faithful(nodes, d, site) && LegacyDict(d, site) == d && !ReadAlike(path, site)
            && Key(path) == (if site.reading == KeepsEmpty then "k" else "")
            && Rest(path) == (if site.reading == KeepsEmpty then "" else "k")
  {
    var nodes, d: Dict := [Node("k", map[], Scalar(1))], map["k" := Scalar(1)];
    assert "k." == "k" + "." + "" && ".k" == "" + "." + "k";
    SplitInvertsJoin("k", "");
    SplitInvertsJoin("", "k");
    assert 'k' in "k";
    assert LegacyDict(d, site) == d && LegacyNodes(nodes, site) == nodes;
    assert Has(nodes, "k");
  }

  /** On the paths the two read differently every operation can part them. */
  lemma ADotCanPartThem(site: Site)
    ensures var nodes, d := [Node("k", map[], Scalar(1))], map["k" := Scalar(1)];
            var path := if site.reading == KeepsEmpty then "k." else ".k";
            && Faithful(nodes, d, site)
            && Legacy(GetItem(nodes, Labels(path, site), Null), site) != ReadIn(d, path, Null, site)
            && !Faithful(SetItem(nodes, Labels(path, site), Scalar(2)), DirectSet(d, path, Scalar(2), site), site)
            && !Faithful(DelItem(nodes, Labels(path, site)), DeleteIn(d, path, site), site)
  {
    var nodes, d: Dict := [Node("k", map[], Scalar(1))], map["k" := Scalar(1)];
    var path := if site.reading == KeepsEmpty then "k." else ".k";
    OneKeyOneDot(site);
    AdapterReadsLikeBag(path, site);
    LabelsOfDotFree("k", site);
    assert 'k' !in "";
    NestedAnswers(d, "k");
    SetIsFaithful(nodes, d, path, Scalar(2), site);
    DeleteIsFaithful(nodes, d, path, site);
    GetIsFaithful(nodes, d, path, Null, site);
  }

  /* ---------------- the snapshot ---------------- */

  lemma {:induction false} SnapshotHasDotFreeNames(d: Dict, order: seq<string>, site: Site)
    requires forall k <- order :: k in d
    ensures forall n <- SnapshotOf(d, order, site) :: DotFree(n.name)
  {
    if order != [] {
      SnapshotHasDotFreeNames(d, order[..|order| - 1], site);
      LabelsAreDotFree(order[|order| - 1], site);
    }
  }

  lemma {:induction false} SnapshotNodes(d: Dict, order: seq<string>, site: Site)
    requires forall k <- order :: k in d && DotFree(k)
    requires forall i, j :: 0 <= i < j < |order| ==> order[i] != order[j]
    ensures var nodes := SnapshotOf(d, order, site);
            |nodes| == |order| &&
            forall i :: 0 <= i < |order| ==> nodes[i] == Node(order[i], map[], Legacy(d[order[i]], site))
  {
    if order != [] {
      var front, last := order[..|order| - 1], order[|order| - 1];
      assert last in order;
      SnapshotNodes(d, front, site);
      var before := SnapshotOf(d, front, site);
      IndexOfUnique(before, last, |front|);
      LabelsOfDotFree(last, site);
      assert SnapshotOf(d, order, site) == before + [Node(last, map[], Legacy(d[last], site))];
    }
  }

  lemma SnapshotRepresents(d: Dict, order: seq<string>, site: Site)
    requires Enumerates(order, d)
    requires forall k <- d.Keys :: DotFree(k)
    ensures Represents(SnapshotOf(d, order, site), LegacyDict(d, site))
  {
    var snapshot := SnapshotOf(d, order, site);
    SnapshotNodes(d, order, site);
    forall k | k in LegacyDict(d, site) ensures Has(snapshot, k) {
      assert k in order;
      var i :| 0 <= i < |order| && order[i] == k;
      assert snapshot[i].name == k;
    }
  }

  /** The snapshot is the dictionary's Bag, on the legacy clock, whatever order the
      dictionary is walked in, exactly when no key carries a dot. */
  lemma SnapshotIsFaithful(d: Dict, order: seq<string>, site: Site)
    requires Enumerates(order, d)
    ensures Represents(SnapshotOf(d, order, site), LegacyDict(d, site)) <==> forall k <- d.Keys :: DotFree(k)
  {
    if forall k <- d.Keys :: DotFree(k) {
      SnapshotRepresents(d, order, site);
    } else {
      SnapshotHasDotFreeNames(d, order, site);
      var k :| k in d && !DotFree(k);
      assert k in LegacyDict(d, site);
      assert !Has(SnapshotOf(d, order, site), k);
    }
  }

  /* ---------------- whole histories on the two backings ---------------- */

  function AllLocal(nodes: seq<Node>, ws: seq<Write>, site: Site): seq<Node> {
    if ws == [] then nodes else LocalWrite(AllLocal(nodes, ws[..|ws| - 1], site), ws[|ws| - 1], site)
  }

  /** A write on which the two backings stay together, given what they hold. */
  predicate KeepsTogether(d: Dict, w: Write, site: Site) {
    w.path == "" || ReadAlike(w.path, site) ||
    match w
    case Set(path, value) => BothHold(LegacyDict(d, site), path, Legacy(value, site), site)
    case Delete(path) => NeitherThere(LegacyDict(d, site), path, site)
  }

  predicate AllKeepTogether(d: Dict, ws: seq<Write>, site: Site) {
    ws == [] ||
    (AllKeepTogether(d, ws[..|ws| - 1], site) && KeepsTogether(AllDirect(d, ws[..|ws| - 1], site), ws[|ws| - 1], site))
  }

  /** Local Bag, dictionary and a block's private copy say the same after each write of
      the history, from nothing. */
  ghost predicate FaithfulThroughout(ws: seq<Write>, site: Site) {
    FaithfulAfter(ws, site) && (ws == [] || FaithfulThroughout(ws[..|ws| - 1], site))
  }

  ghost predicate FaithfulAfter(ws: seq<Write>, site: Site) {
    && Faithful(AllLocal([], ws, site), AllDirect(map[], ws, site), site)
    && Faithful(AllLocal([], ws, site), AllInBlock(map[], ws, site), site)
  }

  lemma OneMoreWrite(ws: seq<Write>, w: Write, site: Site)
    requires FaithfulAfter(ws, site)
    ensures FaithfulAfter(ws + [w], site) <==> KeepsTogether(AllDirect(map[], ws, site), w, site)
  {
    var nodes, x, y := AllLocal([], ws, site), AllDirect(map[], ws, site), AllInBlock(map[], ws, site);
    assert (ws + [w])[..|ws|] == ws;
    SameFace(map[], map[], ws, site);
    if w.path != "" {
      match w
      case Set(path, value) =>
        SetIsFaithful(nodes, x, path, value, site);
        SetIsFaithful(nodes, y, path, value, site);
      case Delete(path) =>
        DeleteIsFaithful(nodes, x, path, site);
        DeleteIsFaithful(nodes, y, path, site);
    }
  }

  /** A history of writes keeps the three together throughout exactly if each of its
      writes does. */
  lemma {:induction false} HistoriesAreFaithful(ws: seq<Write>, site: Site)
    ensures FaithfulThroughout(ws, site) <==> AllKeepTogether(map[], ws, site)
  {
    if ws != [] {
      var front, w := ws[..|ws| - 1], ws[|ws| - 1];
      HistoriesAreFaithful(front, site);
      assert front + [w] == ws;
      if FaithfulThroughout(front, site) {
        OneMoreWrite(front, w, site);
      }
    }
  }
}
