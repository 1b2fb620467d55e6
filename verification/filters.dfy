/** The post-filter evaluator: a registry from names to built-in handlers,
    the three evaluation functions (to a value, to a string, to a boolean),
    `build`, the built-ins `bootstrap` registers, and the translation of
    `extract` arguments into a JSONPath query.

    Handlers may evaluate freshly built expressions, so evaluation takes a
    `fuel` argument: every nested evaluation uses one unit, and running out
    is the `OutOfFuel` error, which the source does not have. */
module FispEval {
  import opened Results
  import opened JavaChars
  import opened Json
  import opened JsonPath
  import opened FispSyntax
  import opened Bsky

  /** The post record a filter is applied to; its labels are a set in the
      source, listed here in the set's iteration order. */
  datatype Post = Post(
    uri: string,
    authorDid: string,
    text: string,
    createdAt: int,
    reason: Option<string>,
    hasEmbeds: bool,
    labels: seq<string>,
    json: Json)

  /** A post, and the user's DID when the context was built with one. */
  datatype FilterContext = FilterContext(post: Post, userDid: Option<string>)

  /** The handlers `bootstrap` registers (contains_regex is not part of this
      model). */
  datatype Builtin =
    | AllOf
    | AnyOf
    | Not
    | Extract
    | HasEmbed
    | ReasonIs
    | IsRetweet
    | AuthorIs
    | IsAuthoredBySelf
    | IsSelfRetweet
    | LabelsContains

  /** The Functions object: the name-to-handler registry, and
      Character.isDefined, which the handlers' casts print with. */
  datatype Functions = Functions(registry: map<string, Builtin>, defined: char -> bool)

  // ---------------------------------------------------------------------
  // Registry

  /** Every name in `names` bound to `b`, later bindings replacing earlier
      ones. */
  function RegisterAll(reg: map<string, Builtin>, names: seq<string>, b: Builtin): map<string, Builtin>
    decreases |names|
  {
    if |names| == 0 then reg else RegisterAll(reg[names[0] := b], names[1..], b)
  }

  /** Functions.register: the name and each alias bound to one handler. */
  function Register(reg: map<string, Builtin>, name: string, b: Builtin, aliases: seq<string>): map<string, Builtin> {
    RegisterAll(reg, [name] + aliases, b)
  }

  /** The registry `bootstrap` fills, in its order of registration. */
  function Bootstrap(): map<string, Builtin> {
    var r := Register(map[], "all_of", AllOf, ["all", "and"]);
    var r := Register(r, "any_of", AnyOf, ["any", "or", "either"]);
    var r := Register(r, "not", Not, ["!"]);
    var r := Register(r, "extract", Extract, []);
    var r := Register(r, "has_embed", HasEmbed, []);
    var r := Register(r, "reason_is", ReasonIs, []);
    var r := Register(r, "is_retweet", IsRetweet, []);
    var r := Register(r, "author_is", AuthorIs, []);
    var r := Register(r, "is_authored_by_self", IsAuthoredBySelf, []);
    var r := Register(r, "is_self_retweet", IsSelfRetweet, []);
    Register(r, "labels_contains", LabelsContains, [])
  }

  /** The same registry written out name by name. */
  const BootstrapRegistry: map<string, Builtin> := map[
    "all_of" := AllOf, "all" := AllOf, "and" := AllOf,
    "any_of" := AnyOf, "any" := AnyOf, "or" := AnyOf, "either" := AnyOf,
    "not" := Not, "!" := Not,
    "extract" := Extract,
    "has_embed" := HasEmbed,
    "reason_is" := ReasonIs,
    "is_retweet" := IsRetweet,
    "author_is" := AuthorIs,
    "is_authored_by_self" := IsAuthoredBySelf,
    "is_self_retweet" := IsSelfRetweet,
    "labels_contains" := LabelsContains]

  /** The text `bootstrap` registers `is_self_retweet` with,
      `either (not is_retweet) (is_authored_by_self)`, joined from its
      words and brackets so that proofs can see where each one ends. */
  const SelfRetweetSource: string :=
    "either" + (" " + ("(" + ("not" + (" " + ("is_retweet" + (")" + (" " + ("(" + ("is_authored_by_self" + ")")))))))))

  /** The expression `is_self_retweet` stands for: SelfRetweetSource as
      parsed. */
  const SelfRetweetExpr: Fisp :=
    Array([Str("either"), Array([Str("not"), Str("is_retweet")]), Array([Str("is_authored_by_self")])])

  // ---------------------------------------------------------------------
  // Argument access

  /** `argStream()`: every element after the head. */
  function Args(a: Fisp): (r: seq<Fisp>)
    requires a.Array?
    ensures |a.elems| > 0 ==> r == a.elems[1..]
    ensures |a.elems| == 0 ==> r == []
  {
    if |a.elems| == 0 then [] else a.elems[1..]
  }

  /** `argument()`: the second element, or the empty Array when there is
      none. */
  function Argument(a: Fisp): (r: Fisp)
    requires a.Array?
    ensures |a.elems| >= 2 ==> r == a.elems[1]
    ensures |a.elems| < 2 ==> r == Array([])
  {
    if |a.elems| <= 1 then Array([]) else a.elems[1]
  }

  // ---------------------------------------------------------------------
  // Evaluation

  /** Functions.eval: a Str is a call with no arguments, an Array headed by
      a Str a call, and anything else its own value. An empty Array has no
      head to read, and an unregistered name is an error. */
  function Eval(fs: Functions, f: Fisp, ctx: FilterContext, fuel: nat): (r: Result<Fisp>)
    ensures f.Bool? && fuel > 0 ==> r == Success(f)
    ensures f.Array? && |f.elems| == 0 ==> r.Failure?
    decreases fuel, 0
  {
    if fuel == 0 then Failure(OutOfFuel)
    else
      match f
      case Bool(_) => Success(f)
      case Str(name) => Call(fs, name, Array([f]), ctx, fuel - 1)
      case Array(es) =>
        if |es| == 0 then Failure(NoSuchElement(""))
        else if es[0].Str? then Call(fs, es[0].s, f, ctx, fuel - 1)
        else Success(f)
  }

  /** Functions.get followed by the handler: an unregistered name is
      NoSuchElementException. */
  function Call(fs: Functions, name: string, a: Fisp, ctx: FilterContext, fuel: nat): (r: Result<Fisp>)
    requires a.Array?
    ensures name !in fs.registry ==> r == Failure(NoSuchElement("No such filter type " + name))
    decreases fuel, 4
  {
    if name in fs.registry then Apply(fs, fs.registry[name], a, ctx, fuel)
    else Failure(NoSuchElement("No such filter type " + name))
  }

  /** Functions.evalToString: a Str is its text and a Bool its name; an
      Array headed by a registered name is its handler's result as a
      string, one headed by another Str that Str's text, and any other
      Array its first element as a string. */
  function EvalToString(fs: Functions, f: Fisp, ctx: FilterContext, fuel: nat): (r: Result<string>)
    ensures f.Str? && fuel > 0 ==> r == Success(f.s)
    ensures f.Array? && |f.elems| == 0 ==> r.Failure?
    decreases fuel, 0
  {
    if fuel == 0 then Failure(OutOfFuel)
    else
      match f
      case Str(s) => Success(s)
      case Bool(b) => Success(if b then "true" else "false")
      case Array(es) =>
        if |es| == 0 then Failure(NoSuchElement(""))
        else if es[0].Str? then
          if es[0].s in fs.registry then
            var v :- Apply(fs, fs.registry[es[0].s], f, ctx, fuel - 1);
            EvalToString(fs, v, ctx, fuel - 1)
          else Success(es[0].s)
        else EvalToString(fs, es[0], ctx, fuel - 1)
  }

  /** Functions.evalToBool: a Str is true when not blank and a Bool is its
      value; an Array headed by a registered name is the truth of its
      handler's result, one headed by another Str that Str's truth, and any
      other Array the truth of its first element. */
  function EvalToBool(fs: Functions, f: Fisp, ctx: FilterContext, fuel: nat): (r: Result<bool>)
    ensures f.Str? && fuel > 0 ==> r == Success(!IsBlank(f.s))
    ensures f.Bool? && fuel > 0 ==> r == Success(f.b)
    ensures f.Array? && |f.elems| == 0 ==> r.Failure?
    decreases fuel, 0
  {
    if fuel == 0 then Failure(OutOfFuel)
    else
      match f
      case Str(s) => Success(!IsBlank(s))
      case Bool(b) => Success(b)
      case Array(es) =>
        if |es| == 0 then Failure(NoSuchElement(""))
        else if es[0].Str? then
          if es[0].s in fs.registry then
            var v :- Apply(fs, fs.registry[es[0].s], f, ctx, fuel - 1);
            EvalToBool(fs, v, ctx, fuel - 1)
          else Success(!IsBlank(es[0].s))
        else EvalToBool(fs, es[0], ctx, fuel - 1)
  }

  /** Functions.build applied to a context: the truth of the evaluated
      expression. */
  function Build(fs: Functions, f: Fisp, ctx: FilterContext, fuel: nat): (r: Result<bool>)
    ensures r.Success? <==> Eval(fs, f, ctx, fuel).Success?
  {
    var v :- Eval(fs, f, ctx, fuel);
    Success(IsTruthy(v))
  }

  // ---------------------------------------------------------------------
  // Built-ins

  /** A built-in applied to its whole call expression `a` (head included). */
  function Apply(fs: Functions, b: Builtin, a: Fisp, ctx: FilterContext, fuel: nat): (r: Result<Fisp>)
    requires a.Array?
    decreases fuel, 3
  {
    match b
    case AllOf =>
      var v :- AllTrue(fs, Args(a), ctx, fuel);
      Success(Bool(v))
    case AnyOf =>
      var v :- AnyTrue(fs, Args(a), ctx, fuel);
      Success(Bool(v))
    case Not =>
      var v :- EvalToBool(fs, Argument(a), ctx, fuel);
      Success(Bool(!v))
    case Extract =>
      if |a.elems| == 0 then Failure(IndexOutOfBounds)
      else
        var path :- ExtractPath(a.elems[1..], [], fs.defined);
        var nodes :- Select(path, ctx.post.json);
        Success(Array(FromJsonAll(nodes)))
    case HasEmbed => Success(Bool(ctx.post.hasEmbeds))
    case ReasonIs =>
      if ctx.post.reason.None? then Success(Bool(false))
      else
        var v :- AnyEquals(fs, Args(a), ctx.post.reason.value, ctx, fuel);
        Success(Bool(v))
    case IsRetweet => Eval(fs, Array([Str("reason_is"), Str(ReasonRepost)]), ctx, fuel)
    case AuthorIs =>
      var v :- AnyEquals(fs, Args(a), ctx.post.authorDid, ctx, fuel);
      Success(Bool(v))
    case IsAuthoredBySelf =>
      Eval(fs, Array([Str("author_is"), Str(ctx.userDid.GetOr(""))]), ctx, fuel)
    case IsSelfRetweet => Eval(fs, SelfRetweetExpr, ctx, fuel)
    case LabelsContains =>
      var v :- AnyLabel(fs, ctx.post.labels, Args(a), ctx, fuel);
      Success(Bool(v))
  }

  /** The selected nodes, each converted to Fisp. */
  function FromJsonAll(nodes: seq<Json>): seq<Fisp> {
    seq(|nodes|, i requires 0 <= i < |nodes| => FromJson(nodes[i]))
  }

  /** `allMatch(evalToBool)`: stops at the first false argument. */
  function AllTrue(fs: Functions, args: seq<Fisp>, ctx: FilterContext, fuel: nat): (r: Result<bool>)
    ensures |args| == 0 ==> r == Success(true)
    decreases fuel, 1, |args|
  {
    if |args| == 0 then Success(true)
    else
      var v :- EvalToBool(fs, args[0], ctx, fuel);
      if !v then Success(false) else AllTrue(fs, args[1..], ctx, fuel)
  }

  /** `anyMatch(evalToBool)`: stops at the first true argument. */
  function AnyTrue(fs: Functions, args: seq<Fisp>, ctx: FilterContext, fuel: nat): (r: Result<bool>)
    ensures |args| == 0 ==> r == Success(false)
    decreases fuel, 1, |args|
  {
    if |args| == 0 then Success(false)
    else
      var v :- EvalToBool(fs, args[0], ctx, fuel);
      if v then Success(true) else AnyTrue(fs, args[1..], ctx, fuel)
  }

  /** `map(evalToString).anyMatch(target::equals)`: stops at the first
      argument whose string is `target`. */
  function AnyEquals(fs: Functions, args: seq<Fisp>, target: string, ctx: FilterContext, fuel: nat): (r: Result<bool>)
    ensures |args| == 0 ==> r == Success(false)
    decreases fuel, 1, |args|
  {
    if |args| == 0 then Success(false)
    else
      var v :- EvalToString(fs, args[0], ctx, fuel);
      if v == target then Success(true) else AnyEquals(fs, args[1..], target, ctx, fuel)
  }

  /** labels_contains: some label equals the string of some argument,
      labels tried in order and the arguments re-evaluated for each. */
  function AnyLabel(fs: Functions, labels: seq<string>, args: seq<Fisp>, ctx: FilterContext, fuel: nat): (r: Result<bool>)
    ensures |labels| == 0 ==> r == Success(false)
    decreases fuel, 2, |labels|
  {
    if |labels| == 0 then Success(false)
    else
      var v :- AnyEquals(fs, args, labels[0], ctx, fuel);
      if v then Success(true) else AnyLabel(fs, labels[1..], args, ctx, fuel)
  }

  // ---------------------------------------------------------------------
  // extract

  /** The segments of an `extract` call's arguments. `.` and `..` each take
      the next argument as a child segment's selectors; a `$` before the
      first segment and every other argument are skipped. A `.` or `..`
      with nothing after it is an error. */
  function ExtractPath(args: seq<Fisp>, path: Path, defined: char -> bool): (r: Result<Path>)
    ensures |args| == 0 ==> r == Success(path)
    ensures r.Success? ==> |r.value| >= |path| && r.value[..|path|] == path
    ensures r.Success? ==> forall k :: |path| <= k < |r.value| ==> r.value[k].Child?
    decreases |args|
  {
    if |args| == 0 then Success(path)
    else if |path| == 0 && args[0] == Str("$") then ExtractPath(args[1..], path, defined)
    else if args[0] == Str(".") || args[0] == Str("..") then
      if |args| < 2 then Failure(NoSuchElement(""))
      else
        var sels :- SelectorsOf(args[1], defined);
        var r := ExtractPath(args[2..], path + [Child(sels)], defined);
        assert r.Success? ==> r.value[..|path|] == (path + [Child(sels)])[..|path|];
        r
    else ExtractPath(args[1..], path, defined)
  }

  /** A text that is one or more ASCII digits, possibly after a minus sign:
      what `-?\d+` matches. */
  predicate IsSignedDigits(p: string) {
    var digits := if |p| > 0 && p[0] == '-' then p[1..] else p;
    |digits| > 0 && forall i :: 0 <= i < |digits| ==> IsAsciiDigit(digits[i])
  }

  /** Whether the whole text matches `(-?\d+)?:(-?\d+)?:(-?\d+)?`. */
  predicate IsSlicePattern(v: string) {
    var parts := Split(v, ':');
    |parts| == 3 && forall k :: 0 <= k < 3 ==> parts[k] == [] || IsSignedDigits(parts[k])
  }

  /** One group of the slice pattern, read in turn: a group that did not
      take part in the match is `null`, and asking it `isEmpty` throws;
      otherwise Integer.parseInt reads it. */
  function SlicePart(part: string): (r: Result<Int32>)
    ensures part == [] ==> r == Failure(NullPointer)
    ensures part != [] ==> r.Success? == ParseInt(part, 10).Success?
    ensures r.Success? ==> Success(r.value as int) == ParseInt(part, 10)
  {
    if part == [] then Failure(NullPointer)
    else
      var n :- ParseInt(part, 10);
      Success(n)
  }

  /** The selectors a string argument stands for: `*` is the wildcard, a
      run of ASCII digits (even an empty one) an index, a full `a:b:c` a
      slice, and anything else a name. A slice with an omitted part reads
      a missing regex group and fails. */
  function SelectorsOfStr(v: string): (r: Result<seq<Selector>>)
    ensures r.Success? ==> |r.value| == 1
    ensures v == "*" ==> r == Success([Wildcard])
  {
    if v == "*" then Success([Wildcard])
    else if forall i :: 0 <= i < |v| ==> IsAsciiDigit(v[i]) then
      var n :- ParseInt(v, 10);
      Success([Index(n)])
    else if IsSlicePattern(v) then
      var parts := Split(v, ':');
      var start :- SlicePart(parts[0]);
      var end :- SlicePart(parts[1]);
      var step :- SlicePart(parts[2]);
      Success([Slice(Some(start), Some(end), Some(step))])
    else Success([Name(v)])
  }

  /** makeJsonPathSelectorsFromFisp: a Bool is read as its name; a
      two-element Array headed by `name` is a name selector for its second
      element cast to a Str; any other Array is the union of its elements'
      selectors, in order. */
  function SelectorsOf(f: Fisp, defined: char -> bool): (r: Result<seq<Selector>>)
    ensures f.Str? ==> r == SelectorsOfStr(f.s)
    decreases f, 1
  {
    match f
    case Bool(b) => SelectorsOfStr(if b then "true" else "false")
    case Str(v) => SelectorsOfStr(v)
    case Array(vs) =>
      if |vs| == 2 && vs[0] == Str("name") then Success([Name(CastStr(vs[1], defined).s)])
      else SelectorsOfAll(vs, defined)
  }

  /** The elements' selectors concatenated; the first failure wins. */
  function SelectorsOfAll(vs: seq<Fisp>, defined: char -> bool): (r: Result<seq<Selector>>)
    ensures |vs| == 0 ==> r == Success([])
    decreases vs, 0
  {
    if |vs| == 0 then Success([])
    else
      var first :- SelectorsOf(vs[0], defined);
      var rest :- SelectorsOfAll(vs[1..], defined);
      Success(first + rest)
  }
}
