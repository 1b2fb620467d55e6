/** Properties of the JSONPath engine: how node lists thread through a
    path, the descendant segment against the recursive definition of
    RFC 9535 section 2.5.2, and what each selector yields. */
module JsonPathProperties {
  import opened Results
  import opened Json
  import opened JsonPath
  import opened Seqs
  import opened JavaChars

  /** Two node-list results joined in order; the first failure wins. */
  function AppendResults(a: Result<seq<Json>>, b: Result<seq<Json>>): Result<seq<Json>> {
    if a.Failure? then a
    else if b.Failure? then b
    else Success(a.value + b.value)
  }

  // ---------------------------------------------------------------------
  // Threading node lists

  /** Applying selectors to a concatenation of node lists gives the
      concatenation of the results, in the same order. */
  lemma {:induction false} SelectEachAppend(sels: seq<Selector>, xs: seq<Json>, ys: seq<Json>)
    ensures SelectEach(sels, xs + ys) == AppendResults(SelectEach(sels, xs), SelectEach(sels, ys))
  {
    if |xs| == 0 {
      assert xs + ys == ys;
      if SelectEach(sels, ys).Success? {
        assert [] + SelectEach(sels, ys).value == SelectEach(sels, ys).value;
      }
    } else {
      NodesCons(xs, ys);
      SelectEachAppend(sels, xs[1..], ys);
      var first := SelectorsSelect(sels, xs[0]);
      if first.Success? && SelectEach(sels, xs[1..]).Success? && SelectEach(sels, ys).Success? {
        NodesAssoc(first.value, SelectEach(sels, xs[1..]).value, SelectEach(sels, ys).value);
      }
    }
  }

  lemma NodesCons(xs: seq<Json>, ys: seq<Json>)
    requires |xs| > 0
    ensures (xs + ys)[0] == xs[0] && (xs + ys)[1..] == xs[1..] + ys
  {
  }

  lemma NodesAssoc(a: seq<Json>, b: seq<Json>, c: seq<Json>)
    ensures a + (b + c) == (a + b) + c
  {
  }

  /** A path split in two: the second part runs on the first part's nodes,
      and a failure in the first part is the failure of the whole. */
  lemma {:induction false} SelectFromAppend(p: Path, q: Path, nodes: seq<Json>)
    ensures SelectFrom(p + q, nodes) ==
      match SelectFrom(p, nodes)
      case Success(mid) => SelectFrom(q, mid)
      case Failure(e) => Failure(e)
  {
    if |p| == 0 {
      assert p + q == q;
    } else {
      assert (p + q)[0] == p[0];
      assert (p + q)[1..] == p[1..] + q;
      var next := SegmentSelect(p[0], nodes);
      if next.Success? {
        SelectFromAppend(p[1..], q, next.value);
      }
    }
  }

  /** A one-segment path is that segment applied to the root alone. */
  lemma SelectSingleSegment(seg: Segment, root: Json)
    ensures Select([seg], root) == SegmentSelect(seg, [root])
  {
    assert [seg][0] == seg && [seg][1..] == [];
    var r := SegmentSelect(seg, [root]);
    if r.Success? {
      assert SelectFrom([seg], [root]) == SelectFrom([], r.value);
    } else {
      assert SelectFrom([seg], [root]) == Failure(r.error);
    }
  }

  lemma SelectorsSingle(sel: Selector, j: Json)
    ensures SelectorsSelect([sel], j) == SelectorSelect(sel, j)
  {
    var r := SelectorSelect(sel, j);
    assert [sel][0] == sel && [sel][1..] == [];
    if r.Success? {
      assert r.value + [] == r.value;
    }
  }

  lemma SelectEachCons(sels: seq<Selector>, j: Json, rest: seq<Json>)
    ensures SelectEach(sels, [j] + rest) == AppendResults(SelectorsSelect(sels, j), SelectEach(sels, rest))
  {
    assert ([j] + rest)[0] == j && ([j] + rest)[1..] == rest;
  }

  /** When every node yields exactly one result, the results line up with
      the nodes. */
  lemma {:induction false} SelectEachOnePerNode(sels: seq<Selector>, xs: seq<Json>, ys: seq<Json>)
    requires |xs| == |ys|
    requires forall i :: 0 <= i < |xs| ==> SelectorsSelect(sels, xs[i]) == Success([ys[i]])
    ensures SelectEach(sels, xs) == Success(ys)
  {
    if |xs| > 0 {
      TailsOnePerNode(sels, xs, ys);
      SelectEachOnePerNode(sels, xs[1..], ys[1..]);
      EachCons(sels, xs, [ys[0]], ys[1..]);
      NodesHeadTail(ys);
    }
  }

  lemma TailsOnePerNode(sels: seq<Selector>, xs: seq<Json>, ys: seq<Json>)
    requires 0 < |xs| == |ys|
    requires forall i :: 0 <= i < |xs| ==> SelectorsSelect(sels, xs[i]) == Success([ys[i]])
    ensures SelectorsSelect(sels, xs[0]) == Success([ys[0]])
    ensures forall i :: 0 <= i < |xs[1..]| ==> SelectorsSelect(sels, xs[1..][i]) == Success([ys[1..][i]])
  {
    forall i | 0 <= i < |xs[1..]|
      ensures SelectorsSelect(sels, xs[1..][i]) == Success([ys[1..][i]])
    {
      assert xs[1..][i] == xs[i + 1] && ys[1..][i] == ys[i + 1];
    }
  }

  /** Nodes in turn: what the first node gives, then what the rest give. */
  lemma EachCons(sels: seq<Selector>, xs: seq<Json>, first: seq<Json>, rest: seq<Json>)
    requires |xs| > 0
    requires SelectorsSelect(sels, xs[0]) == Success(first) && SelectEach(sels, xs[1..]) == Success(rest)
    ensures SelectEach(sels, xs) == Success(first + rest)
  {
  }

  lemma NodesHeadTail(ys: seq<Json>)
    requires |ys| > 0
    ensures ys == [ys[0]] + ys[1..]
  {
  }

  lemma SelectFromCons(seg: Segment, rest: Path, nodes: seq<Json>)
    ensures SegmentSelect(seg, nodes).Success? ==>
      SelectFrom([seg] + rest, nodes) == SelectFrom(rest, SegmentSelect(seg, nodes).value)
    ensures SegmentSelect(seg, nodes).Failure? ==>
      SelectFrom([seg] + rest, nodes) == Failure(SegmentSelect(seg, nodes).error)
  {
    assert ([seg] + rest)[0] == seg && ([seg] + rest)[1..] == rest;
  }

  // ---------------------------------------------------------------------
  // The descendant segment

  lemma {:induction false} FlattenDescendants(cs: seq<Json>)
    ensures Flatten(seq(|cs|, i requires 0 <= i < |cs| => DescendantsAndSelf(cs[i]))) == DescendantsOfAll(cs)
  {
    var parts := seq(|cs|, i requires 0 <= i < |cs| => DescendantsAndSelf(cs[i]));
    if |cs| > 0 {
      assert parts[1..] == seq(|cs[1..]|, i requires 0 <= i < |cs[1..]| => DescendantsAndSelf(cs[1..][i]));
      FlattenDescendants(cs[1..]);
    }
  }

  /** Pre-order: a node, then the descendant lists of its children in
      container order. */
  lemma DescendantsUnfold(j: Json)
    ensures DescendantsAndSelf(j) == [j] + DescendantsOfAll(Children(j))
  {
    FlattenDescendants(Children(j));
  }

  /** RFC 9535 section 2.5.2: the selectors applied to the node, followed
      by the descendant segment applied to each child in order. */
  ghost function DescendantSelect(sels: seq<Selector>, j: Json): Result<seq<Json>>
    decreases j, |Children(j)| + 1
  {
    AppendResults(SelectorsSelect(sels, j), DescendantSelectAll(sels, Children(j), j))
  }

  ghost function DescendantSelectAll(sels: seq<Selector>, cs: seq<Json>, parent: Json): Result<seq<Json>>
    requires forall c :: c in cs ==> c < parent
    decreases parent, |cs|
  {
    if |cs| == 0 then Success([])
    else
      assert cs[0] in cs && forall c :: c in cs[1..] ==> c in cs;
      AppendResults(DescendantSelect(sels, cs[0]), DescendantSelectAll(sels, cs[1..], parent))
  }

  lemma SelectEachSingle(sels: seq<Selector>, j: Json)
    ensures SelectEach(sels, [j]) == SelectorsSelect(sels, j)
  {
    var r := SelectorsSelect(sels, j);
    assert [j][1..] == [];
    if r.Success? {
      assert r.value + [] == r.value;
    }
  }

  /** The implementation's descendant segment (expand the node into itself
      and its descendants, then apply the selectors) agrees with the
      recursive definition of RFC 9535 section 2.5.2. */
  lemma {:induction false} DescendantSegmentMatchesRfc(sels: seq<Selector>, j: Json)
    ensures SegmentSelect(Descendant(sels), [j]) == DescendantSelect(sels, j)
    decreases j, |Children(j)| + 1
  {
    assert DescendantsOfAll([j]) == DescendantsAndSelf(j) + DescendantsOfAll([]);
    assert DescendantsOfAll([j]) == DescendantsAndSelf(j);
    DescendantsUnfold(j);
    SelectEachAppend(sels, [j], DescendantsOfAll(Children(j)));
    SelectEachSingle(sels, j);
    DescendantsOfAllMatchesRfc(sels, Children(j), j);
  }

  lemma {:induction false} DescendantsOfAllMatchesRfc(sels: seq<Selector>, cs: seq<Json>, parent: Json)
    requires forall c :: c in cs ==> c < parent
    ensures SelectEach(sels, DescendantsOfAll(cs)) == DescendantSelectAll(sels, cs, parent)
    decreases parent, |cs|
  {
    if |cs| > 0 {
      assert cs[0] in cs && forall c :: c in cs[1..] ==> c in cs;
      SelectEachAppend(sels, DescendantsAndSelf(cs[0]), DescendantsOfAll(cs[1..]));
      DescendantSegmentMatchesRfc(sels, cs[0]);
      assert DescendantsOfAll([cs[0]]) == DescendantsAndSelf(cs[0]) + DescendantsOfAll([]);
      assert DescendantsOfAll([cs[0]]) == DescendantsAndSelf(cs[0]);
      assert SelectEach(sels, DescendantsAndSelf(cs[0])) == DescendantSelect(sels, cs[0]);
      DescendantsOfAllMatchesRfc(sels, cs[1..], parent);
    }
  }

  /** No selector finds anything in a primitive or null. */
  lemma {:induction false} SelectorsOnPrimitive(sels: seq<Selector>, j: Json)
    requires !j.JArray? && !j.JObject?
    ensures SelectorsSelect(sels, j) == Success([])
  {
    if |sels| > 0 {
      SelectorsOnPrimitive(sels[1..], j);
      assert SelectorSelect(sels[0], j) == Success([]);
      var none: seq<Json> := [];
      assert none + none == none;
    }
  }

  /** The descendant segment over children, when each child's own result
      is known: the results concatenated in child order. */
  lemma {:induction false} DescendantSelectAllPointwise(sels: seq<Selector>, cs: seq<Json>, parent: Json, rs: seq<seq<Json>>)
    requires forall c :: c in cs ==> c < parent
    requires |rs| == |cs|
    requires forall i :: 0 <= i < |cs| ==> DescendantSelect(sels, cs[i]) == Success(rs[i])
    ensures DescendantSelectAll(sels, cs, parent) == Success(Flatten(rs))
    decreases |cs|
  {
    if |cs| > 0 {
      assert forall c :: c in cs[1..] ==> c in cs;
      DescendantSelectAllPointwise(sels, cs[1..], parent, rs[1..]);
    }
  }

  /** The descendant segment at one node, when each child's result is
      known: the node's own matches, then the children's in order. */
  lemma DescendantSelectNode(sels: seq<Selector>, j: Json, rs: seq<seq<Json>>)
    requires |rs| == |Children(j)|
    requires forall i :: 0 <= i < |rs| ==> DescendantSelect(sels, Children(j)[i]) == Success(rs[i])
    requires SelectorsSelect(sels, j).Success?
    ensures DescendantSelect(sels, j) == Success(SelectorsSelect(sels, j).value + Flatten(rs))
  {
    DescendantSelectAllPointwise(sels, Children(j), j, rs);
  }

  /** Every node a descendant segment starts from comes first in its own
      expansion, and everything after it lies strictly inside it. */
  lemma DescendantsAreInside(j: Json, k: nat)
    requires 0 < k < |DescendantsAndSelf(j)|
    ensures DescendantsAndSelf(j)[k] < j
  {
    DescendantsUnfold(j);
    var d := DescendantsAndSelf(j)[k];
    assert d in DescendantsAndSelf(j);
    if d == j {
      assert d in DescendantsOfAll(Children(j));
      DescendantsOfAllInside(Children(j), j);
      assert false;
    }
  }

  lemma {:induction false} DescendantsOfAllInside(cs: seq<Json>, parent: Json)
    requires forall c :: c in cs ==> c < parent
    ensures forall d :: d in DescendantsOfAll(cs) ==> d < parent
  {
    if |cs| > 0 {
      assert cs[0] in cs && forall c :: c in cs[1..] ==> c in cs;
      DescendantsOfAllInside(cs[1..], parent);
    }
  }

  // ---------------------------------------------------------------------
  // Selectors

  /** A name selector yields exactly the member stored under the name, and
      only from an object. */
  lemma NameSelector(name: string, j: Json)
    ensures SelectorSelect(Name(name), j).Success?
    ensures |SelectorSelect(Name(name), j).value| <= 1
    ensures forall v :: SelectorSelect(Name(name), j).value == [v]
                        <==> j.JObject? && Lookup(j.members, name) == Some(v)
  {
  }

  /** The index selectors `from`, `from + 1`, ..., `n - 1`. */
  function IndexSelectors(from: nat, n: nat): (r: seq<Selector>)
    requires n <= IntMax + 1
    ensures |r| == if from <= n then n - from else 0
    decreases n - from
  {
    if from < n then [Index(from)] + IndexSelectors(from + 1, n) else []
  }

  /** The wildcard on an array is the index selectors 0 .. n-1 in turn
      (a Java array holds at most IntMax elements). */
  lemma WildcardIsAllIndices(j: Json)
    requires j.JArray? && |j.elems| <= IntMax
    ensures SelectorsSelect(IndexSelectors(0, |j.elems|), j) == SelectorSelect(Wildcard, j)
  {
    AllIndicesFrom(j, 0);
    assert j.elems[0..] == j.elems;
  }

  lemma {:induction false} AllIndicesFrom(j: Json, from: nat)
    requires j.JArray? && from <= |j.elems| <= IntMax
    ensures SelectorsSelect(IndexSelectors(from, |j.elems|), j) == Success(j.elems[from..])
    decreases |j.elems| - from
  {
    var sels := IndexSelectors(from, |j.elems|);
    if from < |j.elems| {
      IndicesFromCons(|j.elems|, from);
      AllIndicesFrom(j, from + 1);
      IndexSelector(from, j);
      SelectorsCons(sels, j, [j.elems[from]], j.elems[from + 1..]);
      SuffixCons(j.elems, from);
    } else {
      assert sels == [] && j.elems[from..] == [];
    }
  }

  /** Selectors in turn: what the first selects, then what the rest do. */
  lemma SelectorsCons(sels: seq<Selector>, j: Json, first: seq<Json>, rest: seq<Json>)
    requires |sels| > 0
    requires SelectorSelect(sels[0], j) == Success(first) && SelectorsSelect(sels[1..], j) == Success(rest)
    ensures SelectorsSelect(sels, j) == Success(first + rest)
  {
  }

  /** The index selectors from `from` on: `from`, then those from `from + 1`. */
  lemma IndicesFromCons(n: nat, from: nat)
    requires from < n <= IntMax + 1
    ensures IndexSelectors(from, n)[0] == Index(from)
    ensures IndexSelectors(from, n)[1..] == IndexSelectors(from + 1, n)
  {
  }

  lemma SuffixCons(xs: seq<Json>, from: nat)
    requires from < |xs|
    ensures xs[from..] == [xs[from]] + xs[from + 1..]
  {
  }

  /** Index selector: element `i` when `0 <= i < size`, nothing past the
      end or on anything but an array, and an out-of-bounds exception for a
      negative index into any array. */
  lemma IndexSelector(i: Int32, j: Json)
    ensures j.JArray? && 0 <= i < |j.elems| ==> SelectorSelect(Index(i), j) == Success([j.elems[i]])
    ensures (!j.JArray? || i >= |j.elems|) ==> SelectorSelect(Index(i), j) == Success([])
    ensures j.JArray? && i < 0 ==> SelectorSelect(Index(i), j) == Failure(IndexOutOfBounds)
  {
  }

  /** A slice visits array elements at the indices `SliceIndices` gives, so
      it never reads outside the array, unless its index wraps. */
  lemma SliceSelector(s: Selector, j: Json)
    requires s.Slice?
    ensures !j.JArray? ==> SelectorSelect(s, j) == Success([])
    ensures j.JArray? && SliceWraps(s, |j.elems|) ==> SelectorSelect(s, j) == Failure(IndexOutOfBounds)
    ensures j.JArray? && !SliceWraps(s, |j.elems|) ==>
      && SelectorSelect(s, j).Success?
      && |SelectorSelect(s, j).value| == |SliceIndices(s, |j.elems|)|
      && (forall k :: 0 <= k < |SliceIndices(s, |j.elems|)| ==>
            SelectorSelect(s, j).value[k] == j.elems[SliceIndices(s, |j.elems|)[k]])
    ensures s.step == Some(0) ==> SelectorSelect(s, j) == Success([])
  {
  }

  /** A negative start with a positive step normalises past the end, so
      the slice is empty, as long as `size - start` stays an `int`. */
  lemma NegativeStartAscendingIsEmpty(start: Int32, end: Option<Int32>, step: Int32, size: nat)
    requires start < 0 && step > 0 && size - start <= IntMax
    ensures SliceIndices(Slice(Some(start), end, Some(step)), size) == []
  {
  }

  /** When `size - start` passes the `int` range it wraps to a negative
      value, which clamps to 0: the slice starts at the first element. */
  lemma FarNegativeStartFromZero(start: Int32, end: Option<Int32>, step: Int32, size: nat)
    requires start < 0 && step > 0 && size <= IntMax && size - start > IntMax
    ensures LowerUp(Slice(Some(start), end, Some(step)), size) == 0
    ensures forall k :: 0 <= k < |SliceIndices(Slice(Some(start), end, Some(step)), size)| ==>
      SliceIndices(Slice(Some(start), end, Some(step)), size)[k] == k * step
  {
  }

  /** `[-2147483648::]` over three elements selects all three. */
  lemma MinStartSelectsAll()
    ensures SliceIndices(Slice(Some(IntMin), None, None), 3) == [0, 1, 2]
    ensures !SliceWraps(Slice(Some(IntMin), None, None), 3)
  {
    var r := SliceIndices(Slice(Some(IntMin), None, None), 3);
    assert Ascending(0, 3, 1) == [0] + Ascending(1, 3, 1);
    assert Ascending(1, 3, 1) == [1] + Ascending(2, 3, 1);
    assert Ascending(2, 3, 1) == [2] + Ascending(3, 3, 1);
  }

  /** A negative-step slice never reaches index 0: its lower bound
      normalises to zero or more and is exclusive, as long as
      `size - end` stays an `int`. */
  lemma DescendingNeverYieldsZero(s: Selector, size: nat)
    requires s.Slice? && s.step.GetOr(1) < 0
    requires size - BoundOr(s.end, -(size as int) - 1) <= IntMax
    ensures 0 !in SliceIndices(s, size)
  {
  }

  /** With `end` at the bottom of the `int` range, `size - end` wraps to a
      negative bound and `[2:-2147483648:-1]` reaches index 0. */
  lemma MinEndReachesZero()
    ensures SliceIndices(Slice(Some(2), Some(IntMin), Some(-1)), 3) == [2, 1, 0]
  {
    assert LowerDown(Slice(Some(2), Some(IntMin), Some(-1)), 3) == -1;
    assert Descending(2, -1, -1) == [2] + Descending(1, -1, -1);
    assert Descending(1, -1, -1) == [1] + Descending(0, -1, -1);
    assert Descending(0, -1, -1) == [0] + Descending(-1, -1, -1);
  }

  /** An ascending slice whose next index passes IntMax fails:
      `[1:2:2147483647]` over three elements. */
  lemma HugeStepWraps(j: Json)
    requires j.JArray? && |j.elems| == 3
    ensures SelectorSelect(Slice(Some(1), Some(2), Some(IntMax)), j) == Failure(IndexOutOfBounds)
  {
    assert Ascending(1, 2, IntMax) == [1] + Ascending(1 + IntMax, 2, IntMax);
  }

  /** A descending slice never wraps: every index it visits is at least 0,
      so adding an `int` step stays at IntMin or above. */
  lemma DescendingStaysInRange(s: Selector, size: nat)
    requires s.Slice? && s.step.GetOr(1) < 0 && size <= IntMax
    ensures forall k :: 0 <= k < |SliceIndices(s, size)| ==>
      0 <= SliceIndices(s, size)[k] <= IntMax && IntMin <= SliceIndices(s, size)[k] + s.step.GetOr(1)
  {
  }

  /** `[::-1]` visits nothing: the default end `-size-1` normalises to
      `2*size+1`, which clamps to the default start. */
  lemma ReverseSliceIsEmpty(size: nat)
    requires 2 * size + 1 <= IntMax
    ensures SliceIndices(Slice(None, None, Some(-1)), size) == []
  {
  }

  /** From 2^30 elements on, `2*size+1` wraps to a negative bound and
      `[::-1]` visits the whole array backwards. */
  lemma ReverseSliceOfHugeArray(size: nat)
    requires 2 * size + 1 > IntMax && size <= IntMax
    ensures |SliceIndices(Slice(None, None, Some(-1)), size)| == size
    ensures forall k :: 0 <= k < size ==> SliceIndices(Slice(None, None, Some(-1)), size)[k] == size - 1 - k
  {
    var s := Slice(None, None, Some(-1));
    assert UpperDown(s, size) == size - 1;
    assert LowerDown(s, size) == -1;
    DescendingByOne(size - 1, -1);
  }

  /** Stepping down by one from `i` to just above `lower` visits
      `i - lower` indices. */
  lemma {:induction false} DescendingByOne(i: int, lower: int)
    requires lower <= i
    ensures |Descending(i, lower, -1)| == i - lower
    decreases i - lower
  {
    if lower < i {
      DescendingByOne(i - 1, lower);
    }
  }

  // ---------------------------------------------------------------------
  // Against RFC 9535 section 2.3.4.2.2

  /** Slice bounds as RFC 9535 normalises them: `len + i` for negative i. */
  function RfcNormalise(idx: int, size: nat): int {
    if idx >= 0 then idx else size + idx
  }

  /** The slice indices RFC 9535 section 2.3.4.2.2 prescribes. */
  function RfcSliceIndices(s: Selector, size: nat): seq<int>
    requires s.Slice?
  {
    var step: int := s.step.GetOr(1);
    var start := BoundOr(s.start, if step >= 0 then 0 else size as int - 1);
    var end := BoundOr(s.end, if step >= 0 then size as int else -(size as int) - 1);
    if step == 0 then []
    else
      var nStart := RfcNormalise(start, size);
      var nEnd := RfcNormalise(end, size);
      if step > 0 then
        Ascending(Clamp(nStart, 0, size), Clamp(nEnd, 0, size), step)
      else
        Descending(Clamp(nStart, -1, size as int - 1), Clamp(nEnd, -1, size as int - 1), step)
  }

  /** With a positive step and no negative bound the implementation agrees
      with the standard. */
  lemma SliceAgreesWithRfc(s: Selector, size: nat)
    requires s.Slice? && s.step.GetOr(1) > 0
    requires s.start.GetOr(0) >= 0 && s.end.GetOr(0) >= 0
    ensures SliceIndices(s, size) == RfcSliceIndices(s, size)
  {
  }

  /** They part on `[::-1]`: the standard reverses the array, the
      implementation yields nothing. */
  lemma ReverseSliceDiffersFromRfc()
    ensures SliceIndices(Slice(None, None, Some(-1)), 3) == []
    ensures RfcSliceIndices(Slice(None, None, Some(-1)), 3) == [2, 1, 0]
  {
    assert Descending(2, -1, -1) == [2] + Descending(1, -1, -1);
    assert Descending(1, -1, -1) == [1] + Descending(0, -1, -1);
    assert Descending(0, -1, -1) == [0] + Descending(-1, -1, -1);
  }
}
