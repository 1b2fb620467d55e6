/** The JSONPath subset of RFC 9535 that the filter language's `extract`
    uses: child and descendant segments (sections 2.5.1 and 2.5.2) over
    name, wildcard, index and array-slice selectors (sections 2.3.1 to
    2.3.4). Two deviations of the implementation are kept: a negative slice
    bound normalises to `size - i` instead of `size + i`, and the index
    selector has no negative indices (a negative one is an out-of-bounds
    exception). Indices and slice bounds are Java `int`s, and the slice
    arithmetic wraps as Java's does. The filter selector of section 2.3.5 only ever throws and is
    not part of this model. */
module JsonPath {
  import opened Results
  import opened Json
  import opened Seqs
  import opened JavaChars

  datatype Selector =
    | Name(name: string)
    | Wildcard
    | Index(index: Int32)
    | Slice(start: Option<Int32>, end: Option<Int32>, step: Option<Int32>)

  datatype Segment =
    | Child(selectors: seq<Selector>)
    | Descendant(selectors: seq<Selector>)

  type Path = seq<Segment>

  // ---------------------------------------------------------------------
  // Tree walking

  /** The node followed by all of its descendants, in pre-order and
      container order. */
  function DescendantsAndSelf(j: Json): (r: seq<Json>)
    ensures |r| > 0 && r[0] == j
    ensures forall d :: d in r ==> d == j || d < j
    decreases j
  {
    var cs := Children(j);
    var parts := seq(|cs|, i requires 0 <= i < |cs| => DescendantsAndSelf(cs[i]));
    FlattenBelow(parts, j);
    [j] + Flatten(parts)
  }

  /** Every element of the flattening is below `j` when every part's
      elements are. */
  lemma {:induction false} FlattenBelow(parts: seq<seq<Json>>, j: Json)
    requires forall i, d :: 0 <= i < |parts| && d in parts[i] ==> d < j
    ensures forall d :: d in Flatten(parts) ==> d < j
  {
    if |parts| > 0 {
      FlattenBelow(parts[1..], j);
    }
  }

  /** The descendants (and self) of every node, one block per node. */
  function DescendantsOfAll(nodes: seq<Json>): seq<Json> {
    if |nodes| == 0 then [] else DescendantsAndSelf(nodes[0]) + DescendantsOfAll(nodes[1..])
  }

  // ---------------------------------------------------------------------
  // Selectors

  function Clamp(x: int, lo: int, hi: int): int
    requires lo <= hi
  {
    if x < lo then lo else if x > hi then hi else x
  }

  /** Negative index normalisation as the implementation writes it:
      `size - idx` in `int` arithmetic. It lands past the end, unless it
      passes the `int` range and wraps to a negative value. */
  function Normalise(idx: int, size: nat): (n: int)
    ensures idx >= 0 ==> n == idx
    ensures idx < 0 && size - idx <= IntMax ==> n == size - idx && n > size
    ensures IntMin <= idx < 0 && size <= IntMax && size - idx > IntMax ==> n == size - idx - 0x1_0000_0000 && n < 0
  {
    if idx >= 0 then idx else Wrap32(size - idx)
  }

  /** A bound as given, or the default. */
  function BoundOr(b: Option<Int32>, default: int): int {
    match b
    case Some(v) => v
    case None => default
  }

  /** `lower, lower + step, ...` while below `upper`. */
  function Ascending(i: int, upper: int, step: int): (r: seq<int>)
    requires step > 0
    ensures forall k :: 0 <= k < |r| ==> r[k] == i + k * step && r[k] < upper
    ensures forall k :: 0 <= k < |r| ==> i <= r[k]
    ensures i + |r| * step >= upper
    decreases upper - i
  {
    if i < upper then
      var rest := Ascending(i + step, upper, step);
      StepCons(i, step, rest);
      [i] + rest
    else []
  }

  /** `upper, upper + step, ...` (step negative) while above `lower`. */
  function Descending(i: int, lower: int, step: int): (r: seq<int>)
    requires step < 0
    ensures forall k :: 0 <= k < |r| ==> r[k] == i + k * step && r[k] > lower
    ensures forall k :: 0 <= k < |r| ==> r[k] <= i
    ensures i + |r| * step <= lower
    decreases i - lower
  {
    if lower < i then
      var rest := Descending(i + step, lower, step);
      StepCons(i, step, rest);
      [i] + rest
    else []
  }

  /** Putting `i` in front of the run from `i + step` gives the run from
      `i`: the k-th index is `i + k * step`. */
  lemma StepCons(i: int, step: int, rest: seq<int>)
    requires forall k :: 0 <= k < |rest| ==> rest[k] == i + step + k * step
    ensures forall k :: 0 <= k < |[i] + rest| ==> ([i] + rest)[k] == i + k * step
    ensures i + step + |rest| * step == i + |[i] + rest| * step
  {
    forall k | 0 < k < |[i] + rest|
      ensures ([i] + rest)[k] == i + k * step
    {
      assert ([i] + rest)[k] == rest[k - 1];
      MulSucc(k - 1, step);
    }
    MulSucc(|rest|, step);
  }

  lemma MulSucc(k: int, step: int)
    ensures k * step + step == (k + 1) * step
  {
  }

  /** The lower bound of a positive-step slice over `size` elements: the
      start (by default 0), normalised and clamped to `0..size`. */
  function LowerUp(s: Selector, size: nat): nat
    requires s.Slice?
  {
    Clamp(Normalise(BoundOr(s.start, 0), size), 0, size)
  }

  /** The upper bound of a positive-step slice over `size` elements: the
      end (by default `size`), normalised and clamped to `0..size`. */
  function UpperUp(s: Selector, size: nat): nat
    requires s.Slice?
  {
    Clamp(Normalise(BoundOr(s.end, size), size), 0, size)
  }

  /** The first index of a negative-step slice over `size` elements: the
      start (by default `size - 1`), normalised and clamped to
      `-1..size-1`. */
  function UpperDown(s: Selector, size: nat): int
    requires s.Slice?
  {
    Clamp(Normalise(BoundOr(s.start, size as int - 1), size), -1, size as int - 1)
  }

  /** The exclusive last bound of a negative-step slice over `size`
      elements: the end (by default `-size - 1`), normalised and clamped
      to `-1..size-1`. */
  function LowerDown(s: Selector, size: nat): int
    requires s.Slice?
  {
    Clamp(Normalise(BoundOr(s.end, -(size as int) - 1), size), -1, size as int - 1)
  }

  /** The indices an array-slice selector visits in an array of `size`
      elements, in visiting order, up to the first index Java's `int`
      arithmetic would wrap (see SliceWraps). */
  function SliceIndices(s: Selector, size: nat): (r: seq<int>)
    requires s.Slice?
    ensures forall k :: 0 <= k < |r| ==> 0 <= r[k] < size
    ensures s.step.GetOr(1) == 0 ==> r == []
    ensures s.step.GetOr(1) > 0 ==>
      && (forall k :: 0 <= k < |r| ==> r[k] == LowerUp(s, size) + k * s.step.GetOr(1))
      && (forall k :: 0 <= k < |r| ==> r[k] < UpperUp(s, size))
      && LowerUp(s, size) + |r| * s.step.GetOr(1) >= UpperUp(s, size)
    ensures s.step.GetOr(1) < 0 ==>
      && (forall k :: 0 <= k < |r| ==> r[k] == UpperDown(s, size) + k * s.step.GetOr(1))
      && (forall k :: 0 <= k < |r| ==> r[k] > LowerDown(s, size))
      && UpperDown(s, size) + |r| * s.step.GetOr(1) <= LowerDown(s, size)
  {
    var step: int := s.step.GetOr(1);
    if step == 0 then []
    else if step > 0 then Ascending(LowerUp(s, size), UpperUp(s, size), step)
    else Descending(UpperDown(s, size), LowerDown(s, size), step)
  }

  /** Whether an ascending slice steps past the `int` range after its
      last index: Java's `i + step` then wraps to a negative index, which
      is still below the upper bound, and `list.get` throws. A descending
      slice cannot wrap, since its indices stay at 0 or above and the step
      is an `int`. */
  predicate SliceWraps(s: Selector, size: nat)
    requires s.Slice?
  {
    var r := SliceIndices(s, size);
    s.step.GetOr(1) > 0 && |r| > 0 && r[|r| - 1] + s.step.GetOr(1) > IntMax
  }

  /** One selector applied to one node (RFC 9535 sections 2.3.1 to 2.3.4,
      with the implementation's deviations). */
  function SelectorSelect(sel: Selector, j: Json): (r: Result<seq<Json>>)
    ensures r.Failure? <==>
      || (sel.Index? && sel.index < 0 && j.JArray? && |j.elems| > sel.index)
      || (sel.Slice? && j.JArray? && SliceWraps(sel, |j.elems|))
    ensures r.Success? ==> forall d :: d in r.value ==> d < j
  {
    match sel
    case Name(name) =>
      if j.JObject? then
        match Lookup(j.members, name)
        case Some(v) =>
          assert exists i :: 0 <= i < |j.members| && j.members[i] == Member(name, v);
          Success([v])
        case None => Success([])
      else Success([])
    case Wildcard => Success(Children(j))
    case Index(index) =>
      if j.JArray? && |j.elems| > index then
        if index < 0 then Failure(IndexOutOfBounds) else Success([j.elems[index]])
      else Success([])
    case Slice(_, _, _) =>
      if j.JArray? && SliceWraps(sel, |j.elems|) then Failure(IndexOutOfBounds)
      else if j.JArray? then
        var idx := SliceIndices(sel, |j.elems|);
        var r := seq(|idx|, k requires 0 <= k < |idx| => j.elems[idx[k]]);
        assert forall k :: 0 <= k < |r| ==> r[k] in j.elems;
        Success(r)
      else Success([])
  }

  /** A list of selectors applied to one node: each selector's results in
      selector order. */
  function SelectorsSelect(sels: seq<Selector>, j: Json): Result<seq<Json>> {
    if |sels| == 0 then Success([])
    else
      var first :- SelectorSelect(sels[0], j);
      var rest :- SelectorsSelect(sels[1..], j);
      Success(first + rest)
  }

  /** A list of selectors applied to each node in turn. */
  function SelectEach(sels: seq<Selector>, nodes: seq<Json>): Result<seq<Json>> {
    if |nodes| == 0 then Success([])
    else
      var first :- SelectorsSelect(sels, nodes[0]);
      var rest :- SelectEach(sels, nodes[1..]);
      Success(first + rest)
  }

  // ---------------------------------------------------------------------
  // Segments and paths

  /** A segment applied to the node list of the previous step: a child
      segment to the nodes themselves, a descendant segment to the nodes
      expanded into themselves and all their descendants. */
  function SegmentSelect(seg: Segment, nodes: seq<Json>): Result<seq<Json>> {
    match seg
    case Child(sels) => SelectEach(sels, nodes)
    case Descendant(sels) => SelectEach(sels, DescendantsOfAll(nodes))
  }

  /** The segments of `path` applied left to right, starting from `nodes`. */
  function SelectFrom(path: Path, nodes: seq<Json>): Result<seq<Json>> {
    if |path| == 0 then Success(nodes)
    else
      var next :- SegmentSelect(path[0], nodes);
      SelectFrom(path[1..], next)
  }

  /** JsonPath.select: the path applied to the one-node list `[root]`. */
  function Select(path: Path, root: Json): (r: Result<seq<Json>>)
    ensures |path| == 0 ==> r == Success([root])
  {
    SelectFrom(path, [root])
  }
}
