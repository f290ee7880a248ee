/** The structural comparison of two exchanges: register lines aligned by key, compared
    by value, and the differences put to the declared rules. */
module StructuralDiff {
  import opened Wrappers
  import opened Sorting

  /** A masked text, or what is left of a Bag or dict: only equality matters. */
  datatype Shape = Shape(text: string)

  /** A register line as the comparison sees it: what it is aligned by, and the two
      things compared once aligned; `caller` is for the rules alone. */
  datatype Line = Line(key: Shape, arguments: Shape, answer: Shape, caller: string)

  datatype Tag = Equal | Replace | Delete | Insert

  datatype Opcode = Opcode(tag: Tag, leftStart: nat, leftEnd: nat, rightStart: nat, rightEnd: nat)

  datatype Difference = OfArguments | OfAnswer | ExtraCall | MissingCall | DifferentCall

  datatype Divergence = Divergence(kind: Difference, reference: Option<Line>, replica: Option<Line>,
                                   ordinal: nat, known: string)

  /* ---------------- the alignment, as the matcher promises it ---------------- */

  predicate SameKeys(left: seq<Line>, right: seq<Line>) {
    |left| == |right| && forall i :: 0 <= i < |left| ==> left[i].key == right[i].key
  }

  predicate Fits(op: Opcode, left: seq<Line>, right: seq<Line>) {
    && op.leftStart <= op.leftEnd <= |left| && op.rightStart <= op.rightEnd <= |right|
    && (match op.tag
        case Equal =>
          op.leftStart < op.leftEnd && SameKeys(left[op.leftStart..op.leftEnd], right[op.rightStart..op.rightEnd])
        case Replace => op.leftStart < op.leftEnd && op.rightStart < op.rightEnd
        case Delete => op.leftStart < op.leftEnd && op.rightStart == op.rightEnd
        case Insert => op.leftStart == op.leftEnd && op.rightStart < op.rightEnd)
  }

  /** The opcodes cover both sides from the front up to these places, leaving no gap. */
  predicate Tiles(ops: seq<Opcode>, left: seq<Line>, right: seq<Line>, l: nat, r: nat) {
    if ops == [] then l == 0 && r == 0
    else
      var last := ops[|ops| - 1];
      && Fits(last, left, right) && last.leftEnd == l && last.rightEnd == r
      && Tiles(ops[..|ops| - 1], left, right, last.leftStart, last.rightStart)
  }

  /** What the matcher hands over: a tiling, which is one equal block, or nothing at all,
      when the keys agree throughout. */
  predicate Aligns(ops: seq<Opcode>, left: seq<Line>, right: seq<Line>) {
    && Tiles(ops, left, right, |left|, |right|)
    && (SameKeys(left, right) ==> ops == if left == [] then [] else [Opcode(Equal, 0, |left|, 0, |right|)])
  }

  /* ---------------- the differences ---------------- */

  function ValueDifference(one: Line, other: Line, ordinal: nat): seq<Divergence> {
    if one.arguments != other.arguments then [Divergence(OfArguments, Some(one), Some(other), ordinal, "")]
    else if one.answer != other.answer then [Divergence(OfAnswer, Some(one), Some(other), ordinal, "")]
    else []
  }

  /** The value differences of two aligned blocks, of which the left starts at `from`. */
  function ValueDifferences(ones: seq<Line>, others: seq<Line>, from: nat): seq<Divergence>
    requires |ones| == |others|
  {
    if ones == [] then []
    else
      var n := |ones| - 1;
      ValueDifferences(ones[..n], others[..n], from) + ValueDifference(ones[n], others[n], from + n + 1)
  }

  function CallDifference(op: Opcode, left: seq<Line>, right: seq<Line>): Divergence
    requires Fits(op, left, right)
  {
    Divergence(match op.tag case Insert => ExtraCall case Delete => MissingCall case _ => DifferentCall,
               if op.leftEnd > op.leftStart then Some(left[op.leftStart]) else None,
               if op.rightEnd > op.rightStart then Some(right[op.rightStart]) else None,
               op.leftStart + 1, "")
  }

  function BlockDifferences(op: Opcode, left: seq<Line>, right: seq<Line>): seq<Divergence>
    requires Fits(op, left, right)
  {
    if op.tag == Equal then
      ValueDifferences(left[op.leftStart..op.leftEnd], right[op.rightStart..op.rightEnd], op.leftStart)
    else [CallDifference(op, left, right)]
  }

  /** The differences as they are found, block by block. */
  function Found(ops: seq<Opcode>, left: seq<Line>, right: seq<Line>, l: nat, r: nat): seq<Divergence>
    requires Tiles(ops, left, right, l, r)
  {
    if ops == [] then []
    else
      var last := ops[|ops| - 1];
      Found(ops[..|ops| - 1], left, right, last.leftStart, last.rightStart) + BlockDifferences(last, left, right)
  }

  function OrdinalOf(d: Divergence): int {
    d.ordinal
  }

  lemma OneMorePair(ones: seq<Line>, others: seq<Line>, from: nat, n: nat)
    requires |ones| == |others| && n < |ones|
    ensures ValueDifferences(ones[..n + 1], others[..n + 1], from) ==
            ValueDifferences(ones[..n], others[..n], from) + ValueDifference(ones[n], others[n], from + n + 1)
  {
    assert ones[..n + 1][..n] == ones[..n] && others[..n + 1][..n] == others[..n];
  }

  method GetValueDifferences(left: seq<Line>, right: seq<Line>, leftStart: nat, leftEnd: nat, rightStart: nat)
      returns (differences: seq<Divergence>)
    requires leftStart <= leftEnd <= |left| && rightStart + (leftEnd - leftStart) <= |right|
    ensures differences ==
            ValueDifferences(left[leftStart..leftEnd], right[rightStart..rightStart + (leftEnd - leftStart)], leftStart)
  {
    ghost var ones, others := left[leftStart..leftEnd], right[rightStart..rightStart + (leftEnd - leftStart)];
    differences := [];
    for step := 0 to leftEnd - leftStart
      invariant differences == ValueDifferences(ones[..step], others[..step], leftStart)
    {
      OneMorePair(ones, others, leftStart, step);
      var one, other := left[leftStart + step], right[rightStart + step];
      var kind;
      if one.arguments != other.arguments {
        kind := OfArguments;
      } else if one.answer != other.answer {
        kind := OfAnswer;
      } else {
        continue;
      }
      differences := differences + [Divergence(kind, Some(one), Some(other), leftStart + step + 1, "")];
    }
    assert ones[..leftEnd - leftStart] == ones && others[..leftEnd - leftStart] == others;
  }

  /** The stable sort at the end moves nothing: the blocks come in order already. */
  method GetDifferences(ops: seq<Opcode>, left: seq<Line>, right: seq<Line>) returns (differences: seq<Divergence>)
    requires Aligns(ops, left, right)
    ensures differences == Found(ops, left, right, |left|, |right|)
  {
    differences := [];
    var l, r := 0, 0;
    for i := 0 to |ops|
      invariant Tiles(ops[..i], left, right, l, r)
      invariant differences == Found(ops[..i], left, right, l, r)
    {
      var op := ops[i];
      OneMoreBlock(ops, left, right, i, l, r);
      var found := OfBlock(op, left, right);
      differences := differences + found;
      l, r := op.leftEnd, op.rightEnd;
    }
    FoundIsSorted(ops, left, right, l, r);
    differences := SortBy(OrdinalOf, differences);
  }

  /** An equal block yields its value differences, any other one difference of calls. */
  method OfBlock(op: Opcode, left: seq<Line>, right: seq<Line>) returns (found: seq<Divergence>)
    requires Fits(op, left, right)
    ensures found == BlockDifferences(op, left, right)
  {
    if op.tag == Equal {
      assert |left[op.leftStart..op.leftEnd]| == |right[op.rightStart..op.rightEnd]|;
      found := GetValueDifferences(left, right, op.leftStart, op.leftEnd, op.rightStart);
    } else {
      found := [CallDifference(op, left, right)];
    }
  }

  lemma FoundIsSorted(ops: seq<Opcode>, left: seq<Line>, right: seq<Line>, l: nat, r: nat)
    requires Tiles(ops, left, right, |left|, |right|) && Tiles(ops[..|ops|], left, right, l, r)
    ensures SortBy(OrdinalOf, Found(ops[..|ops|], left, right, l, r)) == Found(ops, left, right, |left|, |right|)
  {
    assert ops[..|ops|] == ops;
    TilesOnce(ops, left, right, l, r, |left|, |right|);
    FoundInOrder(ops, left, right, l, r);
    SortingSortedChangesNothing(OrdinalOf, Found(ops, left, right, l, r));
  }

  lemma OneMoreBlock(ops: seq<Opcode>, left: seq<Line>, right: seq<Line>, i: nat, l: nat, r: nat)
    requires Tiles(ops, left, right, |left|, |right|) && i < |ops| && Tiles(ops[..i], left, right, l, r)
    ensures var op := ops[i];
            && Fits(op, left, right) && l == op.leftStart && r == op.rightStart
            && (op.tag == Equal ==> op.rightEnd == op.rightStart + (op.leftEnd - op.leftStart))
            && Tiles(ops[..i + 1], left, right, op.leftEnd, op.rightEnd)
            && Found(ops[..i + 1], left, right, op.leftEnd, op.rightEnd)
               == Found(ops[..i], left, right, l, r) + BlockDifferences(op, left, right)
  {
    TilesUpTo(ops, left, right, i, |left|, |right|);
    TilesOnce(ops[..i], left, right, l, r, ops[i].leftStart, ops[i].rightStart);
    assert ops[..i + 1][..i] == ops[..i];
  }

  /** Every front part of a tiling tiles up to where its last block ends. */
  lemma {:induction false} TilesUpTo(ops: seq<Opcode>, left: seq<Line>, right: seq<Line>, i: nat, l: nat, r: nat)
    requires Tiles(ops, left, right, l, r) && i <= |ops|
    ensures Tiles(ops[..i], left, right, if i == 0 then 0 else ops[i - 1].leftEnd, if i == 0 then 0 else ops[i - 1].rightEnd)
    ensures i < |ops| ==> Fits(ops[i], left, right) && Tiles(ops[..i], left, right, ops[i].leftStart, ops[i].rightStart)
  {
    if i == |ops| {
      assert ops[..i] == ops;
    } else {
      var front := ops[..|ops| - 1];
      TilesUpTo(front, left, right, i, ops[|ops| - 1].leftStart, ops[|ops| - 1].rightStart);
      assert front[..i] == ops[..i];
    }
  }

  lemma TilesOnce(ops: seq<Opcode>, left: seq<Line>, right: seq<Line>, l: nat, r: nat, l': nat, r': nat)
    requires Tiles(ops, left, right, l, r) && Tiles(ops, left, right, l', r')
    ensures l == l' && r == r'
  {
  }

  lemma SortedTogether(a: seq<Divergence>, b: seq<Divergence>, middle: int)
    requires SortedBy(OrdinalOf, a) && SortedBy(OrdinalOf, b)
    requires (forall d <- a :: d.ordinal <= middle) && (forall d <- b :: middle <= d.ordinal)
    ensures SortedBy(OrdinalOf, a + b)
  {
  }

  lemma OneAtMost(one: Line, other: Line, ordinal: nat)
    ensures SortedBy(OrdinalOf, ValueDifference(one, other, ordinal))
    ensures forall d <- ValueDifference(one, other, ordinal) :: d.ordinal == ordinal
  {
  }

  lemma {:induction false} ValuesInOrder(ones: seq<Line>, others: seq<Line>, from: nat)
    requires |ones| == |others|
    ensures var ds := ValueDifferences(ones, others, from);
            SortedBy(OrdinalOf, ds) && forall d <- ds :: from < d.ordinal <= from + |ones|
  {
    if ones != [] {
      var n := |ones| - 1;
      ValuesInOrder(ones[..n], others[..n], from);
      OneAtMost(ones[n], others[n], from + n + 1);
      SortedTogether(ValueDifferences(ones[..n], others[..n], from),
                     ValueDifference(ones[n], others[n], from + n + 1), from + n);
    }
  }

  lemma BlockInOrder(op: Opcode, left: seq<Line>, right: seq<Line>)
    requires Fits(op, left, right)
    ensures var ds := BlockDifferences(op, left, right);
            SortedBy(OrdinalOf, ds) && forall d <- ds :: op.leftStart < d.ordinal <= op.leftEnd + 1
  {
    if op.tag == Equal {
      ValuesInOrder(left[op.leftStart..op.leftEnd], right[op.rightStart..op.rightEnd], op.leftStart);
    }
  }

  lemma {:induction false} FoundInOrder(ops: seq<Opcode>, left: seq<Line>, right: seq<Line>, l: nat, r: nat)
    requires Tiles(ops, left, right, l, r)
    ensures var ds := Found(ops, left, right, l, r);
            SortedBy(OrdinalOf, ds) && forall d <- ds :: 0 < d.ordinal <= l + 1
  {
    if ops != [] {
      var last := ops[|ops| - 1];
      FoundInOrder(ops[..|ops| - 1], left, right, last.leftStart, last.rightStart);
      BlockInOrder(last, left, right);
      SortedTogether(Found(ops[..|ops| - 1], left, right, last.leftStart, last.rightStart),
                     BlockDifferences(last, left, right), last.leftStart + 1);
    }
  }

  /* ---------------- what a difference says ---------------- */

  /** The difference is between two aligned lines, the reference the left one, and names
      the first thing they disagree about. */
  predicate OfPair(d: Divergence, one: Line, other: Line, ordinal: nat) {
    && d.reference == Some(one) && d.replica == Some(other) && d.ordinal == ordinal && d.known == ""
    && (if one.arguments != other.arguments then d.kind == OfArguments
        else one.answer != other.answer && d.kind == OfAnswer)
  }

  /** The difference is between unaligned calls: one that only the replica made, one that
      only the reference made, or two that are not the same. */
  predicate OfCalls(d: Divergence, op: Opcode, left: seq<Line>, right: seq<Line>)
    requires Fits(op, left, right) && op.tag != Equal
  {
    && d.ordinal == op.leftStart + 1 && d.known == ""
    && (d.kind == ExtraCall <==> op.tag == Insert) && (d.kind == MissingCall <==> op.tag == Delete)
    && (d.kind == DifferentCall <==> op.tag == Replace)
    && (if op.tag == Insert then d.reference == None else d.reference == Some(left[op.leftStart]))
    && (if op.tag == Delete then d.replica == None else d.replica == Some(right[op.rightStart]))
  }

  /** The difference is between the lines at one place of two aligned blocks, of which the
      left starts at `from`. */
  predicate OfPairAt(d: Divergence, ones: seq<Line>, others: seq<Line>, from: nat, i: int) {
    0 <= i < |ones| && i < |others| && OfPair(d, ones[i], others[i], from + i + 1)
  }

  /** What a block is to yield. */
  ghost predicate OfBlockOnly(d: Divergence, op: Opcode, left: seq<Line>, right: seq<Line>)
    requires Fits(op, left, right)
  {
    if op.tag == Equal then
      exists i :: OfPairAt(d, left[op.leftStart..op.leftEnd], right[op.rightStart..op.rightEnd], op.leftStart, i)
    else OfCalls(d, op, left, right)
  }

  lemma OneMorePlace(d: Divergence, ones: seq<Line>, others: seq<Line>, from: nat, n: nat)
    requires |ones| == |others| == n + 1
    ensures (exists i :: OfPairAt(d, ones, others, from, i))
       <==> (exists i :: OfPairAt(d, ones[..n], others[..n], from, i)) || OfPair(d, ones[n], others[n], from + n + 1)
  {
    if i :| OfPairAt(d, ones, others, from, i) && i < n {
      assert OfPairAt(d, ones[..n], others[..n], from, i);
    }
    if i :| OfPairAt(d, ones[..n], others[..n], from, i) {
      assert OfPairAt(d, ones, others, from, i);
    }
    if OfPair(d, ones[n], others[n], from + n + 1) {
      assert OfPairAt(d, ones, others, from, n);
    }
  }

  lemma LastPair(one: Line, other: Line, ordinal: nat, d: Divergence)
    ensures d in ValueDifference(one, other, ordinal) <==> OfPair(d, one, other, ordinal)
  {
  }

  lemma {:induction false} ValuesAre(ones: seq<Line>, others: seq<Line>, from: nat, d: Divergence)
    requires |ones| == |others|
    ensures d in ValueDifferences(ones, others, from) <==> exists i :: OfPairAt(d, ones, others, from, i)
  {
    if ones != [] {
      var n := |ones| - 1;
      ValuesAre(ones[..n], others[..n], from, d);
      LastPair(ones[n], others[n], from + n + 1, d);
      OneMorePlace(d, ones, others, from, n);
    }
  }

  lemma BlockYields(op: Opcode, left: seq<Line>, right: seq<Line>, d: Divergence)
    requires Fits(op, left, right)
    ensures d in BlockDifferences(op, left, right) <==> OfBlockOnly(d, op, left, right)
  {
    if op.tag == Equal {
      ValuesAre(left[op.leftStart..op.leftEnd], right[op.rightStart..op.rightEnd], op.leftStart, d);
    } else {
      CallsAre(op, left, right, d);
    }
  }

  lemma CallsAre(op: Opcode, left: seq<Line>, right: seq<Line>, d: Divergence)
    requires Fits(op, left, right) && op.tag != Equal
    ensures d == CallDifference(op, left, right) <==> OfCalls(d, op, left, right)
  {
  }

  ghost predicate Yields(op: Opcode, left: seq<Line>, right: seq<Line>, d: Divergence) {
    Fits(op, left, right) && OfBlockOnly(d, op, left, right)
  }

  lemma OneMoreYields(front: seq<Opcode>, last: Opcode, left: seq<Line>, right: seq<Line>, d: Divergence)
    ensures (exists op <- front + [last] :: Yields(op, left, right, d))
       <==> (exists op <- front :: Yields(op, left, right, d)) || Yields(last, left, right, d)
  {
    assert forall op :: op in front + [last] <==> op in front || op == last;
  }

  /** Exactly these differences are reported: for every aligned pair that disagrees the
      first thing it disagrees about, and for every block of calls without a counterpart
      its first call, each on its own side. */
  lemma {:induction false} WhatIsFound(ops: seq<Opcode>, left: seq<Line>, right: seq<Line>, l: nat, r: nat, d: Divergence)
    requires Tiles(ops, left, right, l, r)
    ensures d in Found(ops, left, right, l, r) <==> exists op <- ops :: Yields(op, left, right, d)
  {
    if ops != [] {
      var front, last := ops[..|ops| - 1], ops[|ops| - 1];
      WhatIsFound(front, left, right, last.leftStart, last.rightStart, d);
      BlockYields(last, left, right, d);
      OneMoreYields(front, last, left, right, d);
      assert ops == front + [last];
    }
  }

  /* ---------------- no difference means the same ---------------- */

  predicate SameLine(one: Line, other: Line) {
    one.key == other.key && one.arguments == other.arguments && one.answer == other.answer
  }

  predicate SameLines(left: seq<Line>, right: seq<Line>) {
    |left| == |right| && forall i :: 0 <= i < |left| ==> SameLine(left[i], right[i])
  }

  lemma {:induction false} NoValueDifference(ones: seq<Line>, others: seq<Line>, from: nat)
    requires SameKeys(ones, others)
    ensures ValueDifferences(ones, others, from) == [] <==> SameLines(ones, others)
  {
    if ones != [] {
      var n := |ones| - 1;
      NoValueDifference(ones[..n], others[..n], from);
      LastLine(ones, others);
      LastDifference(ones[n], others[n], from + n + 1);
    }
  }

  lemma LastDifference(one: Line, other: Line, ordinal: nat)
    requires one.key == other.key
    ensures ValueDifference(one, other, ordinal) == [] <==> SameLine(one, other)
    ensures forall d <- ValueDifference(one, other, ordinal) :: d.ordinal == ordinal
  {
  }

  lemma LastLine(ones: seq<Line>, others: seq<Line>)
    requires |ones| == |others| > 0
    ensures SameLines(ones, others)
       <==> SameLines(ones[..|ones| - 1], others[..|ones| - 1]) && SameLine(ones[|ones| - 1], others[|ones| - 1])
  {
    var n := |ones| - 1;
    assert forall i :: 0 <= i < n ==> ones[..n][i] == ones[i] && others[..n][i] == others[i];
  }

  /** Two stretches that agree make one. */
  lemma SameLinesTogether(left: seq<Line>, right: seq<Line>, m: nat, n: nat)
    requires m <= n <= |left| && n <= |right|
    requires SameLines(left[..m], right[..m]) && SameLines(left[m..n], right[m..n])
    ensures SameLines(left[..n], right[..n])
  {
    forall i | 0 <= i < n ensures SameLine(left[..n][i], right[..n][i]) {
      if i < m {
        assert SameLine(left[..m][i], right[..m][i]);
      } else {
        assert SameLine(left[m..n][i - m], right[m..n][i - m]);
      }
    }
  }

  /** As long as nothing is found the two sides march together. */
  lemma {:induction false} NothingFound(ops: seq<Opcode>, left: seq<Line>, right: seq<Line>, l: nat, r: nat)
    requires Tiles(ops, left, right, l, r) && Found(ops, left, right, l, r) == []
    ensures l == r && l <= |left| && r <= |right| && SameLines(left[..l], right[..r])
  {
    if ops != [] {
      var last := ops[|ops| - 1];
      NothingFound(ops[..|ops| - 1], left, right, last.leftStart, last.rightStart);
      assert BlockDifferences(last, left, right) == [];
      NoValueDifference(left[last.leftStart..l], right[last.rightStart..r], last.leftStart);
      SameLinesTogether(left, right, last.leftStart, l);
    }
  }

  /** Sound and complete: no difference is reported exactly when both sides made the same
      calls in the same order, each with the same arguments and the same answer. */
  lemma NoDifferenceIsEquality(ops: seq<Opcode>, left: seq<Line>, right: seq<Line>)
    requires Aligns(ops, left, right)
    ensures Found(ops, left, right, |left|, |right|) == [] <==> SameLines(left, right)
  {
    if Found(ops, left, right, |left|, |right|) == [] {
      NothingFound(ops, left, right, |left|, |right|);
      assert left[..|left|] == left && right[..|right|] == right;
    }
    if SameLines(left, right) && left != [] {
      assert ops[..0] == [];
      assert left[0..|left|] == left && right[0..|right|] == right;
      NoValueDifference(left, right, 0);
    }
  }

  /** The sides agree up to the call before this one. */
  predicate AgreeBefore(ordinal: nat, left: seq<Line>, right: seq<Line>) {
    && 0 < ordinal <= |left| + 1 && ordinal <= |right| + 1
    && SameLines(left[..ordinal - 1], right[..ordinal - 1])
  }

  predicate SameUpTo(ones: seq<Line>, others: seq<Line>, n: int) {
    n <= |ones| && n <= |others| && forall i :: 0 <= i < n ==> SameLine(ones[i], others[i])
  }

  lemma {:induction false} FirstInBlock(ones: seq<Line>, others: seq<Line>, from: nat)
    requires SameKeys(ones, others) && ValueDifferences(ones, others, from) != []
    ensures from < ValueDifferences(ones, others, from)[0].ordinal <= from + |ones|
    ensures SameUpTo(ones, others, ValueDifferences(ones, others, from)[0].ordinal - 1 - from)
  {
    var n := |ones| - 1;
    var front, last := ValueDifferences(ones[..n], others[..n], from), ValueDifference(ones[n], others[n], from + n + 1);
    if front != [] {
      FirstInBlock(ones[..n], others[..n], from);
      MoreLines(ones, others, n, front[0].ordinal - 1 - from);
      assert (front + last)[0] == front[0];
    } else {
      NoValueDifference(ones[..n], others[..n], from);
      MoreLines(ones, others, n, n);
      LastDifference(ones[n], others[n], from + n + 1);
      assert front + last == last;
    }
  }

  lemma MoreLines(ones: seq<Line>, others: seq<Line>, n: nat, k: int)
    requires n <= |ones| && n <= |others| && k <= n
    ensures SameUpTo(ones[..n], others[..n], k) ==> SameUpTo(ones, others, k)
    ensures SameLines(ones[..n], others[..n]) ==> SameUpTo(ones, others, n)
  {
    assert forall i :: 0 <= i < n ==> ones[..n][i] == ones[i] && others[..n][i] == others[i];
  }

  /** What agrees in a block agrees behind what agreed before it. */
  lemma AgreeIntoBlock(left: seq<Line>, right: seq<Line>, m: nat, l: nat, r: nat, k: nat)
    requires m <= l <= |left| && m <= r <= |right|
    requires SameLines(left[..m], right[..m]) && SameUpTo(left[m..l], right[m..r], k)
    ensures AgreeBefore(m + k + 1, left, right)
  {
    forall i | 0 <= i < m + k ensures SameLine(left[i], right[i]) {
      if i < m {
        assert SameLine(left[..m][i], right[..m][i]);
      } else {
        assert SameLine(left[m..l][i - m], right[m..r][i - m]);
      }
    }
  }

  lemma FirstAfter(op: Opcode, left: seq<Line>, right: seq<Line>)
    requires Fits(op, left, right) && op.leftStart == op.rightStart && BlockDifferences(op, left, right) != []
    requires SameLines(left[..op.leftStart], right[..op.leftStart])
    ensures AgreeBefore(BlockDifferences(op, left, right)[0].ordinal, left, right)
  {
    if op.tag == Equal {
      var m := op.leftStart;
      FirstInBlock(left[m..op.leftEnd], right[m..op.rightEnd], m);
      AgreeIntoBlock(left, right, m, op.leftEnd, op.rightEnd, BlockDifferences(op, left, right)[0].ordinal - 1 - m);
    }
  }

  lemma {:induction false} FirstIsInFront(ops: seq<Opcode>, left: seq<Line>, right: seq<Line>, l: nat, r: nat)
    requires Tiles(ops, left, right, l, r) && Found(ops, left, right, l, r) != []
    ensures AgreeBefore(Found(ops, left, right, l, r)[0].ordinal, left, right)
  {
    var last := ops[|ops| - 1];
    var front := Found(ops[..|ops| - 1], left, right, last.leftStart, last.rightStart);
    if front != [] {
      FirstIsInFront(ops[..|ops| - 1], left, right, last.leftStart, last.rightStart);
      assert Found(ops, left, right, l, r)[0] == front[0];
    } else {
      NothingFound(ops[..|ops| - 1], left, right, last.leftStart, last.rightStart);
      FirstAfter(last, left, right);
    }
  }

  /** Everything before the first difference reported is the same on both sides. */
  lemma FirstDifferenceIsFirst(ops: seq<Opcode>, left: seq<Line>, right: seq<Line>)
    requires Aligns(ops, left, right) && Found(ops, left, right, |left|, |right|) != []
    ensures AgreeBefore(Found(ops, left, right, |left|, |right|)[0].ordinal, left, right)
  {
    FirstIsInFront(ops, left, right, |left|, |right|);
  }

  /* ---------------- the declared rules ---------------- */

  /** A rule gives a reason, or an empty text for what it does not recognise. */
  datatype Rule = Rule(name: string, reason: Divergence -> string)

  /** Rule by rule, until one gives a reason. */
  method GetDivergenceReason(rules: seq<Rule>, d: Divergence) returns (reason: string)
    ensures reason == ReasonOf(rules, d)
  {
    for i := 0 to |rules|
      invariant ReasonOf(rules, d) == ReasonOf(rules[i..], d)
    {
      var found := rules[i].reason(d);
      if found != "" {
        return rules[i].name + ": " + found;
      }
    }
    return "";
  }

  function ReasonOf(rules: seq<Rule>, d: Divergence): string {
    if rules == [] then ""
    else if rules[0].reason(d) != "" then rules[0].name + ": " + rules[0].reason(d)
    else ReasonOf(rules[1..], d)
  }

  /** Of the rules that recognise a difference the first in the table names it; without
      one it goes unrecognised. */
  lemma {:induction false} FirstRuleCounts(rules: seq<Rule>, d: Divergence)
    ensures ReasonOf(rules, d) == "" <==> Silent(rules, d)
    ensures forall i: nat :: i < |rules| && rules[i].reason(d) != "" && Silent(rules[..i], d) ==>
              ReasonOf(rules, d) == rules[i].name + ": " + rules[i].reason(d)
  {
    if rules != [] {
      FirstRuleCounts(rules[1..], d);
      assert Silent(rules, d) <==> rules[0].reason(d) == "" && Silent(rules[1..], d) by {
        assert forall i :: 1 <= i < |rules| ==> rules[i] == rules[1..][i - 1];
      }
      forall i: nat | i < |rules| && rules[i].reason(d) != "" && Silent(rules[..i], d)
        ensures ReasonOf(rules, d) == rules[i].name + ": " + rules[i].reason(d)
      {
        if i > 0 {
          assert rules[..i][0] == rules[0];
          assert rules[1..][..i - 1] == rules[..i][1..];
          assert rules[1..][i - 1] == rules[i];
        }
      }
    }
  }

  predicate Silent(rules: seq<Rule>, d: Divergence) {
    forall i :: 0 <= i < |rules| ==> rules[i].reason(d) == ""
  }

  /** The first difference no rule recognises, if any, and those recognised before it. */
  function FirstUnknown(rules: seq<Rule>, ds: seq<Divergence>): nat {
    if ds == [] || ReasonOf(rules, ds[0]) == "" then 0 else 1 + FirstUnknown(rules, ds[1..])
  }

  lemma {:induction false} FirstUnknownIsFirst(rules: seq<Rule>, ds: seq<Divergence>)
    ensures var k := FirstUnknown(rules, ds);
            && k <= |ds|
            && (k < |ds| ==> Silent(rules, ds[k]))
            && (forall i :: 0 <= i < k ==> !Silent(rules, ds[i]))
  {
    if ds != [] && ReasonOf(rules, ds[0]) != "" {
      FirstUnknownIsFirst(rules, ds[1..]);
    }
    if ds != [] {
      FirstRuleCounts(rules, ds[0]);
    }
  }

  lemma {:induction false} UnknownAt(rules: seq<Rule>, ds: seq<Divergence>, i: nat)
    requires i <= |ds| && forall j :: 0 <= j < i ==> ReasonOf(rules, ds[j]) != ""
    requires i < |ds| ==> ReasonOf(rules, ds[i]) == ""
    ensures FirstUnknown(rules, ds) == i
  {
    if i > 0 {
      UnknownAt(rules, ds[1..], i - 1);
    }
  }

  function Marked(rules: seq<Rule>, d: Divergence): Divergence {
    d.(known := ReasonOf(rules, d))
  }

  function AllMarked(rules: seq<Rule>, ds: seq<Divergence>): seq<Divergence> {
    if ds == [] then [] else AllMarked(rules, ds[..|ds| - 1]) + [Marked(rules, ds[|ds| - 1])]
  }

  lemma OneMoreMarked(rules: seq<Rule>, ds: seq<Divergence>, i: nat)
    requires i < |ds|
    ensures AllMarked(rules, ds[..i + 1]) == AllMarked(rules, ds[..i]) + [Marked(rules, ds[i])]
  {
    assert ds[..i + 1][..i] == ds[..i];
  }

  class StructuralDiff {
    const rules: seq<Rule>
    var known: seq<Divergence>

    constructor (rules: seq<Rule>)
      ensures this.rules == rules && known == []
    {
      this.rules := rules;
      known := [];
    }

    /** The first difference nothing recognises, in ordinal order; those before it, and
        no others, are filed as known, each with its reason. */
    method GetDivergence(ops: seq<Opcode>, left: seq<Line>, right: seq<Line>) returns (first: Option<Divergence>)
      requires Aligns(ops, left, right)
      modifies this`known
      ensures var ds := Found(ops, left, right, |left|, |right|);
              var k := FirstUnknown(rules, ds);
              && k <= |ds|
              && known == old(known) + AllMarked(rules, ds[..k])
              && first == if k < |ds| then Some(Marked(rules, ds[k])) else None
    {
      var ds := GetDifferences(ops, left, right);
      for i := 0 to |ds|
        invariant forall j :: 0 <= j < i ==> ReasonOf(rules, ds[j]) != ""
        invariant known == old(known) + AllMarked(rules, ds[..i])
      {
        var reason := GetDivergenceReason(rules, ds[i]);
        if reason == "" {
          UnknownAt(rules, ds, i);
          return Some(ds[i].(known := reason));
        }
        OneMoreMarked(rules, ds, i);
        known := known + [ds[i].(known := reason)];
      }
      UnknownAt(rules, ds, |ds|);
      return None;
    }
  }

  /** With no rule, two exchanges pass exactly when they are the same; with rules, when
      every difference is recognised. */
  lemma PassingExchanges(rules: seq<Rule>, ops: seq<Opcode>, left: seq<Line>, right: seq<Line>)
    requires Aligns(ops, left, right)
    ensures var ds := Found(ops, left, right, |left|, |right|);
            && (FirstUnknown(rules, ds) == |ds| <==> forall d <- ds :: !Silent(rules, d))
            && (rules == [] ==> (FirstUnknown(rules, ds) == |ds| <==> SameLines(left, right)))
  {
    var ds := Found(ops, left, right, |left|, |right|);
    FirstUnknownIsFirst(rules, ds);
    NoDifferenceIsEquality(ops, left, right);
    var k := FirstUnknown(rules, ds);
    if k < |ds| {
      assert ds[k] in ds;
    }
  }
}
