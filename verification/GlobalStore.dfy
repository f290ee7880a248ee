/** What the legacy global store means: reads and writes of dotted paths on one
    dictionary of values, and on the one local Bag that answers before a worker
    attaches. */
module GlobalStore {
  import opened LegacyBag
  import opened GlobalPaths

  type Dict = map<string, Value>

  /** The nodes a subpath write under this key starts from. */
  function BagUnder(d: Dict, key: string): seq<Node> {
    if key in d && d[key].Bag? then d[key].nodes else []
  }

  /* ---------------- the dictionary ---------------- */

  function ReadIn(d: Dict, path: string, default: Value, site: Site): Value {
    if Key(path) !in d then default
    else if Rest(path) == "" then Legacy(d[Key(path)], site)
    else if !d[Key(path)].Bag? then default
    else Legacy(GetItem(d[Key(path)].nodes, Labels(Rest(path), site), default), site)
  }

  /** A write that goes straight to the commander. */
  function DirectSet(d: Dict, path: string, v: Value, site: Site): Dict {
    if Rest(path) == "" then d[Key(path) := Wire(v, site)]
    else d[Key(path) := Bag(SetItem(BagUnder(d, Key(path)), Labels(Rest(path), site), v))]
  }

  /** A write into the private dictionary of a block. */
  function BlockSet(d: Dict, path: string, v: Value, site: Site): Dict {
    if Rest(path) == "" then d[Key(path) := Wire(Legacy(v, site), site)]
    else d[Key(path) := Bag(SetItem(BagUnder(d, Key(path)), Labels(Rest(path), site), Legacy(v, site)))]
  }

  /** A delete, which both roads perform alike. */
  function DeleteIn(d: Dict, path: string, site: Site): Dict {
    if Rest(path) == "" then d - {Key(path)}
    else if Key(path) in d && d[Key(path)].Bag? then
      d[Key(path) := Bag(DelItem(d[Key(path)].nodes, Labels(Rest(path), site)))]
    else d
  }

  /** What a block publishes: every value with its bare naive date given the local zone. */
  function WireAll(d: Dict, site: Site): Dict {
    map k | k in d :: Wire(d[k], site)
  }

  /** The dictionary as the legacy side would read it, whole. */
  function LegacyDict(d: Dict, site: Site): Dict {
    map k | k in d :: Legacy(d[k], site)
  }

  /** A write as the legacy side means it, with no date in sight. */
  function PlainSet(d: Dict, path: string, v: Value, site: Site): Dict {
    if Rest(path) == "" then d[Key(path) := v]
    else d[Key(path) := Bag(SetItem(BagUnder(d, Key(path)), Labels(Rest(path), site), v))]
  }

  lemma LegacyDictPut(d: Dict, key: string, v: Value, site: Site)
    ensures LegacyDict(d[key := v], site) == LegacyDict(d, site)[key := Legacy(v, site)]
    ensures LegacyDict(d - {key}, site) == LegacyDict(d, site) - {key}
  {
  }

  lemma DirectSetMeans(d: Dict, path: string, v: Value, site: Site)
    ensures LegacyDict(DirectSet(d, path, v, site), site)
         == PlainSet(LegacyDict(d, site), path, Legacy(v, site), site)
  {
    if Rest(path) == "" {
      LegacyAbsorbsWire(v, site);
      LegacyDictPut(d, Key(path), Wire(v, site), site);
    } else {
      SubpathSetMeans(d, path, v, site);
    }
  }

  lemma BlockSetMeans(d: Dict, path: string, v: Value, site: Site)
    ensures LegacyDict(BlockSet(d, path, v, site), site)
         == PlainSet(LegacyDict(d, site), path, Legacy(v, site), site)
  {
    LegacyIdempotent(v, site);
    if Rest(path) == "" {
      LegacyAbsorbsWire(Legacy(v, site), site);
      LegacyDictPut(d, Key(path), Wire(Legacy(v, site), site), site);
    } else {
      SubpathSetMeans(d, path, Legacy(v, site), site);
    }
  }

  lemma SubpathSetMeans(d: Dict, path: string, v: Value, site: Site)
    requires Rest(path) != ""
    ensures LegacyDict(d[Key(path) := Bag(SetItem(BagUnder(d, Key(path)), Labels(Rest(path), site), v))], site)
         == PlainSet(LegacyDict(d, site), path, Legacy(v, site), site)
  {
    var nodes := SetItem(BagUnder(d, Key(path)), Labels(Rest(path), site), v);
    LegacyDictPut(d, Key(path), Bag(nodes), site);
    LegacySetItem(BagUnder(d, Key(path)), Labels(Rest(path), site), v, site);
    BagUnderLegacy(d, Key(path), site);
    assert Legacy(Bag(nodes), site) == Bag(LegacyNodes(nodes, site));
  }

  lemma BagUnderLegacy(d: Dict, key: string, site: Site)
    ensures BagUnder(LegacyDict(d, site), key) == LegacyNodes(BagUnder(d, key), site)
  {
  }

  lemma DeleteMeans(d: Dict, path: string, site: Site)
    ensures LegacyDict(DeleteIn(d, path, site), site) == DeleteIn(LegacyDict(d, site), path, site)
  {
    var key := Key(path);
    if Rest(path) == "" {
      LegacyDictPut(d, key, Null, site);
    } else if key in d && d[key].Bag? {
      var nodes := DelItem(d[key].nodes, Labels(Rest(path), site));
      LegacyDictPut(d, key, Bag(nodes), site);
      LegacyDelItem(d[key].nodes, Labels(Rest(path), site), site);
      assert Legacy(Bag(nodes), site) == Bag(LegacyNodes(nodes, site));
      assert LegacyDict(d, site)[key].nodes == LegacyNodes(d[key].nodes, site);
    }
  }

  lemma WireAllMeans(d: Dict, site: Site)
    ensures LegacyDict(WireAll(d, site), site) == LegacyDict(d, site)
  {
    forall k | k in d ensures Legacy(Wire(d[k], site), site) == Legacy(d[k], site) {
      LegacyAbsorbsWire(d[k], site);
    }
  }

  /** A read sees nothing of a dictionary but its legacy face. */
  lemma ReadSeesLegacyFace(d: Dict, path: string, default: Value, site: Site)
    ensures ReadIn(d, path, default, site)
         == var f := LegacyDict(d, site);
            if Key(path) !in f then default
            else if Rest(path) == "" then f[Key(path)]
            else if !f[Key(path)].Bag? then default
            else GetItem(f[Key(path)].nodes, Labels(Rest(path), site), Legacy(default, site))
  {
    var key, f := Key(path), LegacyDict(d, site);
    if key in d && Rest(path) != "" {
      assert f[key].Bag? <==> d[key].Bag?;
      if d[key].Bag? {
        LegacyGetItem(d[key].nodes, Labels(Rest(path), site), default, site);
        assert f[key].nodes == LegacyNodes(d[key].nodes, site);
      }
    }
  }

  /* ---------------- block and direct ---------------- */

  datatype Write = Set(path: string, value: Value) | Delete(path: string)

  /** One write performed straight on the dictionary. An empty path raises and changes nothing. */
  function ApplyDirect(d: Dict, w: Write, site: Site): Dict {
    if w.path == "" then d
    else match w
      case Set(path, value) => DirectSet(d, path, value, site)
      case Delete(path) => DeleteIn(d, path, site)
  }

  /** One write performed inside a block, on its private dictionary. */
  function ApplyInBlock(d: Dict, w: Write, site: Site): Dict {
    if w.path == "" then d
    else match w
      case Set(path, value) => BlockSet(d, path, value, site)
      case Delete(path) => DeleteIn(d, path, site)
  }

  /** One write performed on the local Bag. */
  function LocalWrite(nodes: seq<Node>, w: Write, site: Site): seq<Node> {
    if w.path == "" then nodes
    else match w
      case Set(path, value) => SetItem(nodes, Labels(path, site), Legacy(value, site))
      case Delete(path) => DelItem(nodes, Labels(path, site))
  }

  function AllDirect(d: Dict, ws: seq<Write>, site: Site): Dict {
    if ws == [] then d else ApplyDirect(AllDirect(d, ws[..|ws| - 1], site), ws[|ws| - 1], site)
  }

  function AllInBlock(d: Dict, ws: seq<Write>, site: Site): Dict {
    if ws == [] then d else ApplyInBlock(AllInBlock(d, ws[..|ws| - 1], site), ws[|ws| - 1], site)
  }

  lemma {:induction false} SameFace(d: Dict, e: Dict, ws: seq<Write>, site: Site)
    requires LegacyDict(d, site) == LegacyDict(e, site)
    ensures LegacyDict(AllDirect(d, ws, site), site) == LegacyDict(AllInBlock(e, ws, site), site)
  {
    if ws != [] {
      var front, w := ws[..|ws| - 1], ws[|ws| - 1];
      SameFace(d, e, front, site);
      var x, y := AllDirect(d, front, site), AllInBlock(e, front, site);
      if w.path != "" {
        match w
        case Set(path, value) =>
          DirectSetMeans(x, path, value, site);
          BlockSetMeans(y, path, value, site);
        case Delete(path) =>
          DeleteMeans(x, path, site);
          DeleteMeans(y, path, site);
      }
    }
  }

  /** A clean block and the same writes done directly, one after the other, leave
      every later read with the same answer. */
  lemma BlockEqualsDirect(d: Dict, ws: seq<Write>, site: Site)
    ensures var direct := AllDirect(d, ws, site);
            var block := WireAll(AllInBlock(d, ws, site), site);
            && direct.Keys == block.Keys
            && LegacyDict(direct, site) == LegacyDict(block, site)
            && forall path, default ::
                 ReadIn(direct, path, default, site) == ReadIn(block, path, default, site)
  {
    SameFace(d, d, ws, site);
    WireAllMeans(AllInBlock(d, ws, site), site);
    var direct, block := AllDirect(d, ws, site), WireAll(AllInBlock(d, ws, site), site);
    assert direct.Keys == LegacyDict(direct, site).Keys;
    assert block.Keys == LegacyDict(block, site).Keys;
    forall path, default ensures ReadIn(direct, path, default, site) == ReadIn(block, path, default, site) {
      ReadSeesLegacyFace(direct, path, default, site);
      ReadSeesLegacyFace(block, path, default, site);
    }
  }

  /** Bare naive dates, which a block's close gives the local zone. */
  predicate BareNaive(d: Dict, key: string) {
    key in d && d[key].Naive?
  }

  /** A value both roads would store alike at this path: under a whole key one that the
      legacy side and the wire leave as it is, naive dates and local ones included; below
      a key one that the legacy side leaves as it is. */
  predicate StoredAlike(path: string, v: Value, site: Site) {
    if Rest(path) != "" then v == Legacy(v, site)
    else match v
      case Naive(_) => true
      case Aware(_, zone) => zone == site.zone
      case _ => v == Legacy(v, site)
  }

  lemma SetTellsValues(nodes: seq<Node>, path: seq<Label>, v: Value, w: Value)
    requires path != []
    ensures SetItem(nodes, path, v) == SetItem(nodes, path, w) <==> v == w
  {
    GetAfterSet(nodes, path, v, Null);
    GetAfterSet(nodes, path, w, Null);
  }

  lemma StoredUnderTheKey(d: Dict, path: string, v: Value, site: Site)
    ensures DirectSet(d, path, v, site)[Key(path)] == WireAll(BlockSet(d, path, v, site), site)[Key(path)]
       <==> StoredAlike(path, v, site)
  {
    if Rest(path) != "" {
      SetTellsValues(BagUnder(d, Key(path)), Labels(Rest(path), site), v, Legacy(v, site));
    }
  }

  lemma PutAlike(d: Dict, key: string, x: Value, y: Value, site: Site)
    ensures d[key := x] == WireAll(d[key := y], site)
       <==> x == Wire(y, site) && forall k :: BareNaive(d, k) ==> k == key
  {
    var direct, block := d[key := x], WireAll(d[key := y], site);
    assert direct.Keys == block.Keys;
    if x == Wire(y, site) && forall k :: BareNaive(d, k) ==> k == key {
      forall k | k in direct ensures direct[k] == block[k] {
        assert k != key ==> !BareNaive(d, k);
      }
    } else if k :| BareNaive(d, k) && k != key {
      assert direct[k] != block[k];
    } else {
      assert direct[key] != block[key];
    }
  }

  /** The masters themselves may differ: a write and the same write as a block of its own
      leave the same dictionary exactly if the value is stored alike by both and no other
      key holds a bare naive date. */
  lemma BlockAndDirectStoreAlike(d: Dict, path: string, v: Value, site: Site)
    ensures DirectSet(d, path, v, site) == WireAll(BlockSet(d, path, v, site), site)
       <==> StoredAlike(path, v, site) && forall k :: BareNaive(d, k) ==> k == Key(path)
  {
    var key := Key(path);
    var x, y := DirectSet(d, path, v, site)[key], BlockSet(d, path, v, site)[key];
    StoredUnderTheKey(d, path, v, site);
    PutAlike(d, key, x, y, site);
    assert DirectSet(d, path, v, site) == d[key := x] && BlockSet(d, path, v, site) == d[key := y];
  }

  /** No write by either road, and no close, leaves a bare naive date that was not there. */
  lemma WritesLeaveNoBareNaive(d: Dict, w: Write, site: Site, key: string)
    ensures BareNaive(ApplyDirect(d, w, site), key) ==> BareNaive(d, key)
    ensures BareNaive(ApplyInBlock(d, w, site), key) ==> BareNaive(d, key)
    ensures !BareNaive(WireAll(d, site), key)
  {
  }

  lemma ReadsWhatIsPut(d: Dict, path: string, w: Value, default: Value, from: Site, at: Site)
    requires at.reading == from.reading
    ensures ReadIn(PlainSet(d, path, w, from), path, default, at) == Legacy(w, at)
  {
    if Rest(path) != "" {
      GetAfterSet(BagUnder(d, Key(path)), Labels(Rest(path), from), w, default);
    }
  }

  lemma ClosedBlockIsPut(d: Dict, path: string, v: Value, site: Site)
    requires IsDate(v)
    ensures WireAll(BlockSet(d, path, v, site), site)
         == PlainSet(WireAll(d, site), path, if Rest(path) == "" then Wire(Legacy(v, site), site) else Legacy(v, site), site)
  {
    assert BagUnder(WireAll(d, site), Key(path)) == BagUnder(d, Key(path));
  }

  /** A date written by one site and read by another, whose Bags read paths alike, comes
      at the instant it named, on the reader's clock, always under a whole key. Below a key
      the reader is told the writer's clock for what a block wrote and for a naive date;
      the instant is right there only if the two zones are one. */
  lemma WhenADateKeepsItsInstant(d: Dict, path: string, v: Value, default: Value, from: Site, zone: int)
    requires IsDate(v)
    ensures var at, meant := from.(zone := zone), Naive(InstantOf(v, from) + zone);
            && (ReadIn(DirectSet(d, path, v, from), path, default, at) == meant
                <==> Rest(path) == "" || v.Aware? || zone == from.zone)
            && (ReadIn(WireAll(BlockSet(d, path, v, from), from), path, default, at) == meant
                <==> Rest(path) == "" || zone == from.zone)
  {
    ClosedBlockIsPut(d, path, v, from);
    ReadsWhatIsPut(WireAll(d, from), path, if Rest(path) == "" then Wire(Legacy(v, from), from) else Legacy(v, from),
                   default, from, from.(zone := zone));
    ReadsWhatIsPut(d, path, if Rest(path) == "" then Wire(v, from) else v, default, from, from.(zone := zone));
  }

  /** No write, by either road, ever makes a key with a dot. */
  lemma WritesKeepKeysDotFree(d: Dict, w: Write, site: Site)
    requires forall k <- d.Keys :: DotFree(k)
    ensures forall k <- ApplyDirect(d, w, site).Keys :: DotFree(k)
    ensures forall k <- ApplyInBlock(d, w, site).Keys :: DotFree(k)
  {
    SplitLosesNothing(w.path);
  }

  /** A path deleted under an absent key leaves the key absent, not stored as Null. */
  lemma SubpathDeleteUnderAbsentKey(d: Dict, path: string, site: Site)
    requires Key(path) !in d
    ensures DeleteIn(d, path, site) == d
  {
  }

  /* ---------------- the snapshot ---------------- */

  ghost predicate Enumerates(order: seq<string>, d: Dict) {
    && (forall i, j :: 0 <= i < j < |order| ==> order[i] != order[j])
    && (forall k :: k in order <==> k in d)
  }

  /** The dictionary as one Bag, built key by key in the order it is walked. */
  function SnapshotOf(d: Dict, order: seq<string>, site: Site): seq<Node>
    requires forall k <- order :: k in d
  {
    if order == [] then []
    else
      var last := order[|order| - 1];
      SetItem(SnapshotOf(d, order[..|order| - 1], site), Labels(last, site), Legacy(d[last], site))
  }
}
