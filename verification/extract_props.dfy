/** How `extract` arguments spell a JSONPath query: every child-segment
    path whose selectors are names, wildcards, non-negative indices or
    fully written slices has a spelling that `extract` reads back as exactly
    that path, and the spellings that do not work. */
module ExtractProperties {
  import opened Results
  import opened JavaChars
  import opened Json
  import opened JsonPath
  import opened FispSyntax
  import opened FispEval
  import opened FispEvalProperties

  /** A selector an `extract` argument can spell. */
  predicate Spellable(sel: Selector) {
    match sel
    case Name(_) => true
    case Wildcard => true
    case Index(n) => 0 <= n <= IntMax
    case Slice(a, b, c) =>
      && a.Some? && b.Some? && c.Some?
      && IntMin <= a.value <= IntMax && IntMin <= b.value <= IntMax && IntMin <= c.value <= IntMax
  }

  /** The argument that spells a selector: `(name x)` for a name, so that
      no text is mistaken for another kind. */
  function SelectorArg(sel: Selector): Fisp
    requires Spellable(sel)
  {
    match sel
    case Name(n) => Array([Str("name"), Str(n)])
    case Wildcard => Str("*")
    case Index(n) => Str(Decimal(n))
    case Slice(a, b, c) => Str(Signed(a.value) + ":" + Signed(b.value) + ":" + Signed(c.value))
  }

  /** The argument spelling a list of selectors: an Array of their
      spellings. */
  function SelectorsArg(sels: seq<Selector>): Fisp
    requires forall k :: 0 <= k < |sels| ==> Spellable(sels[k])
  {
    Array(seq(|sels|, k requires 0 <= k < |sels| => SelectorArg(sels[k])))
  }

  /** A path `extract` can spell: child segments only. */
  predicate SpellablePath(p: Path) {
    forall k :: 0 <= k < |p| ==> p[k].Child? && forall m :: 0 <= m < |p[k].selectors| ==> Spellable(p[k].selectors[m])
  }

  /** The arguments spelling a path: `.` and the selectors, per segment. */
  function PathArgs(p: Path): seq<Fisp>
    requires SpellablePath(p)
  {
    if |p| == 0 then [] else [Str("."), SelectorsArg(p[0].selectors)] + PathArgs(p[1..])
  }

  // ---------------------------------------------------------------------
  // Selectors

  /** Three colon-free fields joined by colons split back into them. */
  lemma SliceSplit(x: string, y: string, z: string)
    requires ':' !in x && ':' !in y && ':' !in z
    ensures Split(x + ":" + y + ":" + z, ':') == [x, y, z]
  {
    SplitNoSep(z, ':');
    SplitField(y, z, ':');
    SplitField(x, y + ":" + z, ':');
    assert y + [':'] + z == y + ":" + z;
    assert x + ":" + y + ":" + z == x + [':'] + (y + [':'] + z);
    assert [x] + [y, z] == [x, y, z];
  }

  /** Three signed numbers joined by colons make a slice. */
  lemma SliceOfParts(x: string, y: string, z: string, a: int, b: int, c: int)
    requires IsSignedDigits(x) && IsSignedDigits(y) && IsSignedDigits(z)
    requires ':' !in x && ':' !in y && ':' !in z
    requires ParseInt(x, 10) == Success(a) && ParseInt(y, 10) == Success(b) && ParseInt(z, 10) == Success(c)
    ensures SelectorsOfStr(x + ":" + y + ":" + z) == Success([Slice(Some(a), Some(b), Some(c))])
  {
    SlicePatternOf(x, y, z);
    SliceOfFields(x + ":" + y + ":" + z, x, y, z, a, b, c);
  }

  /** Three signed numbers joined by colons match the slice pattern and
      nothing that comes before it. */
  lemma SlicePatternOf(x: string, y: string, z: string)
    requires IsSignedDigits(x) && IsSignedDigits(y) && IsSignedDigits(z)
    requires ':' !in x && ':' !in y && ':' !in z
    ensures var v := x + ":" + y + ":" + z;
      v != "*" && !(forall i :: 0 <= i < |v| ==> IsAsciiDigit(v[i])) && IsSlicePattern(v) &&
      Split(v, ':') == [x, y, z]
  {
    var v := x + ":" + y + ":" + z;
    SliceSplit(x, y, z);
    var parts := [x, y, z];
    assert IsSignedDigits(parts[0]) && IsSignedDigits(parts[1]) && IsSignedDigits(parts[2]);
    assert IsSlicePattern(v);
    assert v[|x|] == ':' && !IsAsciiDigit(v[|x|]);
    assert v != "*" by { assert |v| >= 5; }
  }

  /** A string that is not `*`, not all digits, and splits at its colons
      into three non-empty numbers is a slice of them. */
  lemma SliceOfFields(v: string, x: string, y: string, z: string, a: int, b: int, c: int)
    requires v != "*" && !(forall i :: 0 <= i < |v| ==> IsAsciiDigit(v[i])) && IsSlicePattern(v)
    requires Split(v, ':') == [x, y, z] && x != [] && y != [] && z != []
    requires ParseInt(x, 10) == Success(a) && ParseInt(y, 10) == Success(b) && ParseInt(z, 10) == Success(c)
    ensures SelectorsOfStr(v) == Success([Slice(Some(a), Some(b), Some(c))])
  {
  }

  /** A slice written `a:b:c` is recognised and read back. */
  lemma SliceText(a: int, b: int, c: int)
    requires IntMin <= a <= IntMax && IntMin <= b <= IntMax && IntMin <= c <= IntMax
    ensures SelectorsOfStr(Signed(a) + ":" + Signed(b) + ":" + Signed(c)) == Success([Slice(Some(a), Some(b), Some(c))])
  {
    SignedText(a);
    SignedText(b);
    SignedText(c);
    ParseSigned(a);
    ParseSigned(b);
    ParseSigned(c);
    SliceOfParts(Signed(a), Signed(b), Signed(c), a, b, c);
  }

  /** The decimal form of an integer is `-?\d+` and holds no colon. */
  lemma SignedText(n: int)
    ensures IsSignedDigits(Signed(n)) && ':' !in Signed(n)
  {
    if n < 0 {
      assert Signed(n)[1..] == Decimal(-n);
    } else {
      assert IsAsciiDigit(Decimal(n)[0]);
    }
  }

  /** Each spellable selector's argument reads back as that selector. */
  lemma SelectorArgReads(sel: Selector, defined: char -> bool)
    requires Spellable(sel)
    ensures SelectorsOf(SelectorArg(sel), defined) == Success([sel])
    ensures SelectorArg(sel) != Str("name")
  {
    match sel
    case Name(n) =>
    case Wildcard =>
    case Index(n) =>
      ParseSigned(n);
      assert "name"[0] == 'n' && !IsAsciiDigit('n');
      assert Decimal(n) != "*" by { assert IsAsciiDigit(Decimal(n)[0]); }
    case Slice(a, b, c) =>
      SliceText(a.value, b.value, c.value);
      var v := Signed(a.value) + ":" + Signed(b.value) + ":" + Signed(c.value);
      assert v != "name" by { assert ':' in v && ':' !in "name"; }
  }

  /** A list of selector spellings reads back as the list. */
  lemma {:induction false} SelectorArgsRead(sels: seq<Selector>, defined: char -> bool)
    requires forall k :: 0 <= k < |sels| ==> Spellable(sels[k])
    ensures SelectorsOfAll(seq(|sels|, k requires 0 <= k < |sels| => SelectorArg(sels[k])), defined) == Success(sels)
    decreases |sels|
  {
    if |sels| > 0 {
      var args := seq(|sels|, k requires 0 <= k < |sels| => SelectorArg(sels[k]));
      ArgsCons(sels);
      SelectorArgReads(sels[0], defined);
      SelectorArgsRead(sels[1..], defined);
      SelectorsOfAllCons(args, defined, [sels[0]], sels[1..]);
      assert [sels[0]] + sels[1..] == sels;
    }
  }

  /** The spellings of a non-empty list: the first one's, then the rest's. */
  lemma ArgsCons(sels: seq<Selector>)
    requires |sels| > 0 && forall k :: 0 <= k < |sels| ==> Spellable(sels[k])
    ensures var args := seq(|sels|, k requires 0 <= k < |sels| => SelectorArg(sels[k]));
      |args| > 0 && args[0] == SelectorArg(sels[0]) &&
      args[1..] == seq(|sels[1..]|, k requires 0 <= k < |sels[1..]| => SelectorArg(sels[1..][k]))
  {
    var args := seq(|sels|, k requires 0 <= k < |sels| => SelectorArg(sels[k]));
    assert args[1..] == seq(|sels[1..]|, k requires 0 <= k < |sels[1..]| => SelectorArg(sels[1..][k]));
  }

  /** The selectors of a non-empty list of elements: the first element's,
      then the rest's. */
  lemma SelectorsOfAllCons(vs: seq<Fisp>, defined: char -> bool, first: seq<Selector>, rest: seq<Selector>)
    requires |vs| > 0
    requires SelectorsOf(vs[0], defined) == Success(first) && SelectorsOfAll(vs[1..], defined) == Success(rest)
    ensures SelectorsOfAll(vs, defined) == Success(first + rest)
  {
  }

  /** The Array spelling of a selector list reads back as the list. */
  lemma SelectorsArgReads(sels: seq<Selector>, defined: char -> bool)
    requires forall k :: 0 <= k < |sels| ==> Spellable(sels[k])
    ensures SelectorsOf(SelectorsArg(sels), defined) == Success(sels)
  {
    SelectorArgsRead(sels, defined);
    if |sels| == 2 {
      SelectorArgReads(sels[0], defined);
    }
  }

  // ---------------------------------------------------------------------
  // Paths

  /** The spelling of a path, after segments already read, reads back as
      those segments followed by the path. */
  lemma {:induction false} PathArgsRead(p: Path, acc: Path, defined: char -> bool)
    requires SpellablePath(p) && |acc| > 0
    ensures ExtractPath(PathArgs(p), acc, defined) == Success(acc + p)
    decreases |p|
  {
    if |p| == 0 {
      assert acc + p == acc;
    } else {
      PathArgsCons(p, []);
      SelectorsArgReads(p[0].selectors, defined);
      ExtractDotStep(PathArgs(p), acc, p[0].selectors, defined);
      PathArgsRead(p[1..], acc + [Child(p[0].selectors)], defined);
      PathCons(acc, p);
    }
  }

  /** The spelling of a non-empty path, followed by `tail`: a dot, the
      first segment's selectors, then the rest. */
  lemma PathArgsCons(p: Path, tail: seq<Fisp>)
    requires SpellablePath(p) && |p| > 0
    ensures SpellablePath(p[1..])
    ensures var args := PathArgs(p) + tail;
      |args| >= 2 && args[0] == Str(".") && args[1] == SelectorsArg(p[0].selectors) &&
      args[2..] == PathArgs(p[1..]) + tail
  {
    var args := PathArgs(p) + tail;
    var head := [Str("."), SelectorsArg(p[0].selectors)];
    assert PathArgs(p) == head + PathArgs(p[1..]);
    DropTwo(head, PathArgs(p[1..]), tail);
  }

  /** Kept apart: as an inline assertion this step exhausts the solver's
      budget in PathArgsCons. */
  lemma DropTwo(head: seq<Fisp>, rest: seq<Fisp>, tail: seq<Fisp>)
    requires |head| == 2
    ensures (head + rest + tail)[2..] == rest + tail
    ensures (head + rest + tail)[0] == head[0] && (head + rest + tail)[1] == head[1]
  {
  }

  /** A dot and the selectors after it add one child segment. */
  lemma ExtractDotStep(args: seq<Fisp>, path: Path, sels: seq<Selector>, defined: char -> bool)
    requires |args| >= 2 && args[0] == Str(".") && SelectorsOf(args[1], defined) == Success(sels)
    ensures ExtractPath(args, path, defined) == ExtractPath(args[2..], path + [Child(sels)], defined)
  {
  }

  lemma PathCons(acc: Path, p: Path)
    requires |p| > 0 && p[0].Child?
    ensures acc + [Child(p[0].selectors)] + p[1..] == acc + p
  {
  }

  /** `extract $ . s1 . s2 …` queries exactly the path it spells; the
      leading `$` may be left out. */
  lemma {:induction false} ExtractSpellsPath(p: Path, defined: char -> bool)
    requires SpellablePath(p)
    ensures ExtractPath([Str("$")] + PathArgs(p), [], defined) == Success(p)
    ensures ExtractPath(PathArgs(p), [], defined) == Success(p)
  {
    if |p| == 0 {
      assert [Str("$")] + PathArgs(p) == [Str("$")];
    } else {
      var args := PathArgs(p);
      SelectorsArgReads(p[0].selectors, defined);
      assert args[0] == Str(".") && args[1] == SelectorsArg(p[0].selectors);
      assert args[2..] == PathArgs(p[1..]);
      PathArgsRead(p[1..], [Child(p[0].selectors)], defined);
      assert [] + [Child(p[0].selectors)] == [Child(p[0].selectors)];
      assert [Child(p[0].selectors)] + p[1..] == p;
      assert ExtractPath(args, [], defined) == ExtractPath(args[2..], [Child(p[0].selectors)], defined);
      assert ([Str("$")] + args)[1..] == args;
    }
  }

  /** The whole `extract` call: the post's JSON nodes the spelled path
      selects, each converted to Fisp. */
  lemma ExtractQueries(fs: Functions, p: Path, ctx: FilterContext, fuel: nat)
    requires Bootstrapped(fs) && SpellablePath(p) && fuel > 0
    ensures Eval(fs, Array([Str("extract"), Str("$")] + PathArgs(p)), ctx, fuel) ==
      (var nodes :- Select(p, ctx.post.json); Success(Array(FromJsonAll(nodes))))
  {
    var a := Array([Str("extract"), Str("$")] + PathArgs(p));
    assert fs.registry["extract"] == Extract;
    assert a.elems[0] == Str("extract") && a.elems[1..] == [Str("$")] + PathArgs(p);
    assert Eval(fs, a, ctx, fuel) == Apply(fs, Extract, a, ctx, fuel - 1);
    ExtractSpellsPath(p, fs.defined);
  }

  // ---------------------------------------------------------------------
  // Spellings that do not work

  /** `..` is read like `.`: it asks for a child segment, not descendants. */
  lemma DoubleDotIsChild(next: Fisp, rest: seq<Fisp>, acc: Path, defined: char -> bool)
    ensures ExtractPath([Str(".."), next] + rest, acc, defined) == ExtractPath([Str("."), next] + rest, acc, defined)
  {
    var args := [Str(".."), next] + rest;
    assert args[1] == next && args[2..] == rest;
    var dots := [Str("."), next] + rest;
    assert dots[1] == next && dots[2..] == rest;
  }

  /** A `.` with nothing after it is an error, wherever the spelled path
      stops. */
  lemma {:induction false} TrailingDotFails(p: Path, acc: Path, defined: char -> bool)
    requires SpellablePath(p) && |acc| > 0
    ensures ExtractPath(PathArgs(p) + [Str(".")], acc, defined).Failure?
    decreases |p|
  {
    if |p| == 0 {
      assert PathArgs(p) + [Str(".")] == [Str(".")];
    } else {
      PathArgsCons(p, [Str(".")]);
      SelectorsArgReads(p[0].selectors, defined);
      ExtractDotStep(PathArgs(p) + [Str(".")], acc, p[0].selectors, defined);
      TrailingDotFails(p[1..], acc + [Child(p[0].selectors)], defined);
    }
  }

  /** The empty text is a run of no digits, read as an index, and fails. */
  lemma EmptySelectorFails()
    ensures SelectorsOfStr("") == Failure(NumberFormat(""))
  {
  }

  /** Only unsigned digits make an index: a negative number is a name. */
  lemma NegativeIndexIsName(n: int)
    requires n < 0
    ensures SelectorsOfStr(Signed(n)) == Success([Name(Signed(n))])
  {
    var v := Signed(n);
    assert v[0] == '-' && !IsAsciiDigit(v[0]);
    assert ':' !in v by { SignedText(n); }
    SplitNoSep(v, ':');
  }

  /** An index too large for a Java `int` fails to parse. */
  lemma IndexOverflowFails(n: nat)
    requires n > IntMax
    ensures SelectorsOfStr(Decimal(n)) == Failure(NumberFormat(Decimal(n)))
  {
    DecimalValue(n);
    assert IsAsciiDigit(Decimal(n)[0]) && Decimal(n) != "*";
  }

  /** A slice with an omitted middle part matches the pattern but fails:
      with the NumberFormatException of its start when that does not fit
      an `int`, and otherwise on the missing group. */
  lemma OmittedSlicePartFails(x: string, z: string)
    requires IsSignedDigits(x) && IsSignedDigits(z) && ':' !in x && ':' !in z
    ensures ParseInt(x, 10).Failure? ==> SelectorsOfStr(x + "::" + z) == Failure(NumberFormat(x))
    ensures ParseInt(x, 10).Success? ==> SelectorsOfStr(x + "::" + z) == Failure(NullPointer)
  {
    var v := x + "::" + z;
    assert v == x + ":" + "" + ":" + z;
    SliceSplit(x, "", z);
    var parts := [x, "", z];
    assert parts[1] == [] && IsSignedDigits(parts[0]) && IsSignedDigits(parts[2]);
    assert IsSlicePattern(v);
    assert v[|x|] == ':' && !IsAsciiDigit(v[|x|]);
    assert v != "*" by { assert |v| >= 4; }
  }

  /** The selectors of the parts of an Array are concatenated in order. */
  lemma {:induction false} SelectorsOfAllAppend(xs: seq<Fisp>, ys: seq<Fisp>, defined: char -> bool)
    requires SelectorsOfAll(xs, defined).Success? && SelectorsOfAll(ys, defined).Success?
    ensures SelectorsOfAll(xs + ys, defined) ==
      Success(SelectorsOfAll(xs, defined).value + SelectorsOfAll(ys, defined).value)
    decreases |xs|
  {
    if |xs| == 0 {
      assert xs + ys == ys;
      assert [] + SelectorsOfAll(ys, defined).value == SelectorsOfAll(ys, defined).value;
    } else {
      ConsOfAppend(xs, ys);
      SelectorsOfAllUnfold(xs, defined);
      SelectorsOfAllAppend(xs[1..], ys, defined);
      var first := SelectorsOf(xs[0], defined).value;
      var rx := SelectorsOfAll(xs[1..], defined).value;
      var ry := SelectorsOfAll(ys, defined).value;
      SelectorsOfAllCons(xs + ys, defined, first, rx + ry);
      SelectorsAssoc(first, rx, ry);
    }
  }

  lemma ConsOfAppend(xs: seq<Fisp>, ys: seq<Fisp>)
    requires |xs| > 0
    ensures |xs + ys| > 0 && (xs + ys)[0] == xs[0] && (xs + ys)[1..] == xs[1..] + ys
  {
  }

  lemma SelectorsOfAllUnfold(vs: seq<Fisp>, defined: char -> bool)
    requires |vs| > 0 && SelectorsOfAll(vs, defined).Success?
    ensures SelectorsOf(vs[0], defined).Success? && SelectorsOfAll(vs[1..], defined).Success?
    ensures SelectorsOfAll(vs, defined).value ==
      SelectorsOf(vs[0], defined).value + SelectorsOfAll(vs[1..], defined).value
  {
  }

  /** Kept apart for the same reason as DropTwo. */
  lemma SelectorsAssoc(a: seq<Selector>, b: seq<Selector>, c: seq<Selector>)
    ensures a + (b + c) == (a + b) + c
  {
  }
}
