/** Legacy dotted paths: the first segment is the dictionary key, the rest is read
    inside the Bag stored under it. */
module GlobalPaths {
  import opened LegacyBag

  /** Where the first dot stands; the length when there is none. */
  function FirstDot(path: string): (d: nat)
    ensures d <= |path|
    ensures d < |path| ==> path[d] == '.'
    ensures forall j :: 0 <= j < d ==> path[j] != '.'
  {
    if path == "" || path[0] == '.' then 0 else 1 + FirstDot(path[1..])
  }

  predicate DotFree(s: string) {
    '.' !in s
  }

  function Key(path: string): string {
    path[..FirstDot(path)]
  }

  function Rest(path: string): string {
    if FirstDot(path) == |path| then "" else path[FirstDot(path) + 1..]
  }

  /** All dot-separated segments, the empty ones included. */
  function Segments(path: string): (labels: seq<Label>)
    ensures labels != []
    decreases |path|
  {
    if FirstDot(path) == |path| then [path] else [Key(path)] + Segments(Rest(path))
  }

  function NonEmpty(labels: seq<Label>): seq<Label> {
    if labels == [] then []
    else (if labels[0] != "" then [labels[0]] else []) + NonEmpty(labels[1..])
  }

  /** The path as a Bag of this site reads it. */
  function Labels(path: string, site: Site): (labels: seq<Label>)
    ensures labels != []
  {
    match site.reading
    case KeepsEmpty => Segments(path)
    case DropsEmpty => if NonEmpty(Segments(path)) == [] then [""] else NonEmpty(Segments(path))
  }

  function Join(labels: seq<Label>): string
    requires labels != []
  {
    if |labels| == 1 then labels[0] else labels[0] + "." + Join(labels[1..])
  }

  /** The path as the adapter reads it: the key, then the labels of a non-empty rest. */
  function AdapterPath(path: string, site: Site): (labels: seq<Label>)
    ensures labels != []
  {
    [Key(path)] + if Rest(path) == "" then [] else Labels(Rest(path), site)
  }

  lemma SplitInvertsJoin(key: string, rest: string)
    requires DotFree(key)
    ensures Key(key + "." + rest) == key && Rest(key + "." + rest) == rest
    ensures Key(key) == key && Rest(key) == ""
  {
    var path := key + "." + rest;
    assert path[|key|] == '.';
    assert forall j :: 0 <= j < |key| ==> path[j] == key[j];
    assert FirstDot(path) == |key|;
    assert path[|key| + 1..] == rest;
    FirstDotIsThere(key);
  }

  lemma FirstDotIsThere(s: string)
    ensures FirstDot(s) < |s| <==> !DotFree(s)
  {
    var d := FirstDot(s);
    assert d < |s| ==> s[d] in s;
  }

  /** Splitting loses nothing, and the key it yields is free of dots. */
  lemma SplitLosesNothing(path: string)
    ensures DotFree(Key(path))
    ensures path == if DotFree(path) then Key(path) else Key(path) + "." + Rest(path)
  {
    var d := FirstDot(path);
    if d < |path| {
      assert path[d] in path;
      assert path == path[..d] + [path[d]] + path[d + 1..];
    }
  }

  lemma {:induction false} SegmentsRoundTrip(path: string)
    ensures Join(Segments(path)) == path
    ensures forall l <- Segments(path) :: DotFree(l)
    decreases |path|
  {
    SplitLosesNothing(path);
    if FirstDot(path) < |path| {
      SegmentsRoundTrip(Rest(path));
      assert Segments(path)[1..] == Segments(Rest(path));
    }
  }

  lemma {:induction false} JoinedSegments(labels: seq<Label>)
    requires labels != [] && forall l <- labels :: DotFree(l)
    ensures Segments(Join(labels)) == labels
  {
    assert labels[0] in labels;
    if |labels| == 1 {
      FirstDotIsThere(labels[0]);
    } else {
      assert forall l <- labels[1..] :: l in labels;
      JoinedSegments(labels[1..]);
      SegmentsOfJoined(labels[0], Join(labels[1..]));
      assert labels == [labels[0]] + labels[1..];
    }
  }

  lemma SegmentsOfJoined(key: string, rest: string)
    requires DotFree(key)
    ensures Segments(key + "." + rest) == [key] + Segments(rest)
  {
    SplitInvertsJoin(key, rest);
    FirstDotIsThere(key + "." + rest);
    assert (key + "." + rest)[|key|] in key + "." + rest;
  }

  lemma Regrouped(a: string, b: string, c: string)
    ensures a + "." + b + "." + c == a + "." + (b + "." + c)
  {
  }

  lemma OneSegmentOn(key: string, below: string, rest: string, tail: string)
    requires DotFree(key) && tail == below + "." + rest
    ensures Segments(key + "." + tail) == [key] + Segments(tail)
    ensures Segments(key + "." + below) == [key] + Segments(below)
    ensures key + "." + below + "." + rest == key + "." + tail
  {
    Regrouped(key, below, rest);
    SegmentsOfJoined(key, below);
    SegmentsOfJoined(key, tail);
  }

  lemma Prepended(l: Label, a: seq<Label>, b: seq<Label>, front: seq<Label>, all: seq<Label>)
    requires front == [l] + a && all == [l] + (a + b)
    ensures all == front + b
  {
  }

  lemma SegmentsBehindOne(prefix: string, key: string, below: string, rest: string)
    requires DotFree(key) && prefix == key + "." + below
    requires Segments(below + "." + rest) == Segments(below) + Segments(rest)
    ensures Segments(prefix + "." + rest) == Segments(prefix) + Segments(rest)
  {
    OneSegmentOn(key, below, rest, below + "." + rest);
    Prepended(key, Segments(below), Segments(rest), Segments(prefix), Segments(prefix + "." + rest));
  }

  lemma {:induction false} SegmentsBehind(prefix: string, rest: string)
    ensures Segments(prefix + "." + rest) == Segments(prefix) + Segments(rest)
    decreases |prefix|
  {
    SplitLosesNothing(prefix);
    FirstDotIsThere(prefix);
    if FirstDot(prefix) == |prefix| {
      SegmentsOfJoined(prefix, rest);
    } else {
      SegmentsBehind(Rest(prefix), rest);
      SegmentsBehindOne(prefix, Key(prefix), Rest(prefix), rest);
    }
  }

  lemma {:induction false} JoinBehind(a: seq<Label>, b: seq<Label>)
    requires a != [] && b != []
    ensures Join(a + b) == Join(a) + "." + Join(b)
  {
    if |a| == 1 {
      assert (a + b)[1..] == b;
    } else {
      JoinBehind(a[1..], b);
      assert (a + b)[1..] == a[1..] + b;
    }
  }

  lemma {:induction false} NonEmptyHas(labels: seq<Label>)
    ensures forall l <- NonEmpty(labels) :: l in labels && l != ""
  {
    if labels != [] {
      NonEmptyHas(labels[1..]);
    }
  }

  lemma {:induction false} NonEmptyKeeps(labels: seq<Label>)
    ensures (forall l <- labels :: l != "") ==> NonEmpty(labels) == labels
  {
    if labels != [] {
      NonEmptyKeeps(labels[1..]);
      if forall l <- labels :: l != "" {
        assert labels[0] in labels && forall l <- labels[1..] :: l in labels;
        assert labels == [labels[0]] + labels[1..];
      }
    }
  }

  /** Labels joined by dots are read back as they were, always or, by a Bag that drops
      empty ones, when none is empty or there is no other. */
  lemma JoinRoundTrip(labels: seq<Label>, site: Site)
    requires labels != [] && forall l <- labels :: DotFree(l)
    ensures Labels(Join(labels), site) == labels
       <==> site.reading == KeepsEmpty || labels == [""] || forall l <- labels :: l != ""
  {
    JoinedSegments(labels);
    NonEmptyHas(labels);
    NonEmptyKeeps(labels);
    NonEmptyOfOne("");
  }

  lemma LabelsAreDotFree(path: string, site: Site)
    ensures forall l <- Labels(path, site) :: DotFree(l)
  {
    SegmentsRoundTrip(path);
    NonEmptyHas(Segments(path));
  }

  lemma LabelsOfDotFree(key: string, site: Site)
    requires DotFree(key)
    ensures Labels(key, site) == [key]
  {
    FirstDotIsThere(key);
    NonEmptyOfOne(key);
  }

  lemma NonEmptyOfOne(l: Label)
    ensures NonEmpty([l]) == if l == "" then [] else [l]
  {
    assert [l][1..] == [];
  }

  /* ---------------- the paths both read alike ---------------- */

  predicate OnlyDots(s: string) {
    forall c <- s :: c == '.'
  }

  lemma OnlyDotsSplit(path: string)
    ensures OnlyDots(path) <==> Key(path) == "" && OnlyDots(Rest(path))
  {
    var d := FirstDot(path);
    if d == |path| {
      assert path == Key(path) && forall j :: 0 <= j < |path| ==> path[j] != '.';
      assert path != "" ==> path[0] in path;
    } else {
      assert path == path[..d] + ['.'] + path[d + 1..];
      assert forall c :: c in path <==> c in path[..d] || c == '.' || c in path[d + 1..];
      if d == 0 {
        assert path[..d] == [] && Rest(path) == path[d + 1..];
        assert forall c :: c in path <==> c == '.' || c in Rest(path);
      } else {
        assert path[0] in path[..d] && path[0] in path && path[0] != '.';
      }
    }
  }

  lemma {:induction false} DotsNameNothing(path: string)
    ensures NonEmpty(Segments(path)) == [] <==> OnlyDots(path)
    decreases |path|
  {
    OnlyDotsSplit(path);
    if FirstDot(path) == |path| {
      NonEmptyOfOne(path);
    } else {
      DotsNameNothing(Rest(path));
      SegmentsOfTwo(path);
    }
  }

  /** A Bag that keeps empty labels differs on a key with a bare trailing dot, one that
      drops them on a leading dot and on a key with several dots and nothing else behind. */
  predicate ReadAlike(path: string, site: Site) {
    match site.reading
    case KeepsEmpty => path != Key(path) + "."
    case DropsEmpty => Rest(path) == "" || (Key(path) != "" && !OnlyDots(Rest(path)))
  }

  /** Where the two readings part: one of them ends at the key and the other at an
      empty label below it, or the adapter alone begins with the empty key. */
  predicate Nested(path: string, site: Site) {
    var l, a := Labels(path, site), AdapterPath(path, site);
    (l == [Key(path), ""] && a == [Key(path)]) || (l == [Key(path)] && a == [Key(path), ""])
  }

  predicate Leading(path: string, site: Site) {
    Key(path) == "" && Labels(path, site)[0] != "" && AdapterPath(path, site) == [""] + Labels(path, site)
  }

  lemma SegmentsOfTwo(path: string)
    requires FirstDot(path) < |path|
    ensures Segments(path) == [Key(path)] + Segments(Rest(path))
    ensures NonEmpty(Segments(path)) == (if Key(path) != "" then [Key(path)] else []) + NonEmpty(Segments(Rest(path)))
  {
    assert Segments(path)[1..] == Segments(Rest(path));
  }

  /** The adapter and a Bag read a path alike exactly off these paths; on each of them
      the two part in one of the two ways. */
  lemma AdapterReadsLikeBag(path: string, site: Site)
    ensures AdapterPath(path, site) == Labels(path, site) <==> ReadAlike(path, site)
    ensures !ReadAlike(path, site) ==> Nested(path, site) || Leading(path, site)
  {
    SplitLosesNothing(path);
    FirstDotIsThere(path);
    if FirstDot(path) == |path| {
      assert path == Key(path);
      LabelsOfDotFree(path, site);
    } else if site.reading == KeepsEmpty {
      KeepingReads(path, site);
    } else {
      DroppingReads(path, site);
    }
  }

  lemma KeepingReads(path: string, site: Site)
    requires site.reading == KeepsEmpty && FirstDot(path) < |path|
    ensures AdapterPath(path, site) == Labels(path, site) <==> ReadAlike(path, site)
    ensures !ReadAlike(path, site) ==> Nested(path, site)
  {
    SplitLosesNothing(path);
    FirstDotIsThere(path);
    SegmentsOfTwo(path);
    KeepingTheLast(path, Key(path), Rest(path), Segments(Rest(path)), Labels(path, site), AdapterPath(path, site));
  }

  lemma KeepingTheLast(path: string, k: Label, rest: string, below: seq<Label>, l: seq<Label>, a: seq<Label>)
    requires path == k + "." + rest && l == [k] + below && a == [k] + if rest == "" then [] else below
    requires rest == "" ==> below == [""]
    ensures l == a <==> path != k + "."
    ensures l != a ==> l == [k, ""] && a == [k]
  {
    assert |path| == |k| + 1 + |rest|;
  }

  lemma DroppingReads(path: string, site: Site)
    requires site.reading == DropsEmpty && FirstDot(path) < |path|
    ensures AdapterPath(path, site) == Labels(path, site) <==> ReadAlike(path, site)
    ensures !ReadAlike(path, site) ==> Nested(path, site) || Leading(path, site)
  {
    var k, below := Key(path), NonEmpty(Segments(Rest(path)));
    SegmentsOfTwo(path);
    DotsNameNothing(Rest(path));
    NonEmptyHas(Segments(Rest(path)));
    NonEmptyOfOne("");
    var l := Labels(path, site);
    var a := AdapterPath(path, site);
    assert l == if k != "" then [k] + below else if below == [] then [""] else below;
    assert a == [k] + if Rest(path) == "" then [] else if below == [] then [""] else below;
    PartingWays(k, below, Rest(path) == "", l, a);
  }

  lemma PartingWays(k: Label, below: seq<Label>, none: bool, l: seq<Label>, a: seq<Label>)
    requires none ==> below == []
    requires forall b <- below :: b != ""
    requires l == if k != "" then [k] + below else if below == [] then [""] else below
    requires a == [k] + if none then [] else if below == [] then [""] else below
    ensures l == a <==> none || (k != "" && below != [])
    ensures l != a ==> (l == [k] && a == [k, ""]) || (k == "" && l != [] && l[0] != "" && a == [""] + l)
  {
    if k == "" && below != [] {
      assert |a| == |l| + 1 && below[0] in below;
    }
  }
}
