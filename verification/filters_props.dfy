/** What the evaluator and the registered built-ins compute: the registry
    `bootstrap` builds, how a value is dispatched, the meaning of each
    built-in for a registry holding exactly the bootstrap bindings, and the
    JSONPath query an `extract` call spells. */
module FispEvalProperties {
  import opened Results
  import opened JavaChars
  import opened Json
  import opened JsonPath
  import opened FispSyntax
  import opened FispEval
  import opened FispRoundTrip
  import opened Bsky

  /** The registry of the shared Functions object after `bootstrap`. */
  predicate Bootstrapped(fs: Functions) {
    fs.registry == BootstrapRegistry
  }

  // ---------------------------------------------------------------------
  // The registry

  /** Registering names binds each of them to the handler and leaves every
      other binding alone. */
  lemma {:induction false} RegisterAllBinds(reg: map<string, Builtin>, names: seq<string>, b: Builtin)
    ensures forall k :: k in RegisterAll(reg, names, b) <==> k in reg || k in names
    ensures forall k :: k in names ==> RegisterAll(reg, names, b)[k] == b
    ensures forall k :: k in reg && k !in names ==> RegisterAll(reg, names, b)[k] == reg[k]
    decreases |names|
  {
    if |names| > 0 {
      RegisterAllBinds(reg[names[0] := b], names[1..], b);
      assert forall k :: k in names <==> k == names[0] || k in names[1..];
    }
  }

  lemma RegisterAllStep(reg: map<string, Builtin>, n: string, ns: seq<string>, b: Builtin)
    ensures RegisterAll(reg, [n] + ns, b) == RegisterAll(reg[n := b], ns, b)
  {
    assert ([n] + ns)[1..] == ns;
  }

  lemma RegisterAllOne(reg: map<string, Builtin>, n: string, b: Builtin)
    ensures RegisterAll(reg, [n], b) == reg[n := b]
  {
    RegisterAllStep(reg, n, [], b);
    assert [n] + [] == [n];
  }

  lemma RegisterNoAlias(reg: map<string, Builtin>, n: string, b: Builtin)
    ensures Register(reg, n, b, []) == reg[n := b]
  {
    assert [n] + [] == [n];
    RegisterAllOne(reg, n, b);
  }

  /** `bootstrap` registers seventeen names, bound as written out in
      BootstrapRegistry. */
  lemma BootstrapBindings()
    ensures Bootstrap() == BootstrapRegistry
    ensures BootstrapRegistry.Keys == {
      "all_of", "all", "and", "any_of", "any", "or", "either", "not", "!",
      "extract", "has_embed", "reason_is", "is_retweet", "author_is",
      "is_authored_by_self", "is_self_retweet", "labels_contains"}
  {
    var r0: map<string, Builtin> := map[];
    RegisterAllStep(r0, "all_of", ["all", "and"], AllOf);
    RegisterAllStep(r0["all_of" := AllOf], "all", ["and"], AllOf);
    RegisterAllOne(r0["all_of" := AllOf]["all" := AllOf], "and", AllOf);
    var r1 := r0["all_of" := AllOf]["all" := AllOf]["and" := AllOf];
    assert Register(r0, "all_of", AllOf, ["all", "and"]) == r1 by {
      assert ["all", "and"] == ["all"] + ["and"];
    }
    RegisterAllStep(r1, "any_of", ["any", "or", "either"], AnyOf);
    RegisterAllStep(r1["any_of" := AnyOf], "any", ["or", "either"], AnyOf);
    RegisterAllStep(r1["any_of" := AnyOf]["any" := AnyOf], "or", ["either"], AnyOf);
    RegisterAllOne(r1["any_of" := AnyOf]["any" := AnyOf]["or" := AnyOf], "either", AnyOf);
    var r2 := r1["any_of" := AnyOf]["any" := AnyOf]["or" := AnyOf]["either" := AnyOf];
    assert Register(r1, "any_of", AnyOf, ["any", "or", "either"]) == r2 by {
      assert ["any", "or", "either"] == ["any"] + (["or"] + ["either"]);
    }
    RegisterAllOne(r2["not" := Not], "!", Not);
    RegisterAllStep(r2, "not", ["!"], Not);
    var r3 := r2["not" := Not]["!" := Not];
    RegisterNoAlias(r3, "extract", Extract);
    var r4 := r3["extract" := Extract];
    RegisterNoAlias(r4, "has_embed", HasEmbed);
    var r5 := r4["has_embed" := HasEmbed];
    RegisterNoAlias(r5, "reason_is", ReasonIs);
    var r6 := r5["reason_is" := ReasonIs];
    RegisterNoAlias(r6, "is_retweet", IsRetweet);
    var r7 := r6["is_retweet" := IsRetweet];
    RegisterNoAlias(r7, "author_is", AuthorIs);
    var r8 := r7["author_is" := AuthorIs];
    RegisterNoAlias(r8, "is_authored_by_self", IsAuthoredBySelf);
    var r9 := r8["is_authored_by_self" := IsAuthoredBySelf];
    RegisterNoAlias(r9, "is_self_retweet", IsSelfRetweet);
    var r10 := r9["is_self_retweet" := IsSelfRetweet];
    RegisterNoAlias(r10, "labels_contains", LabelsContains);
  }

  // ---------------------------------------------------------------------
  // Dispatch

  /** A name nobody registered cannot be evaluated, yet as a string it is
      itself and as a boolean it is true unless blank; the same holds of
      an Array it heads. */
  lemma UnregisteredName(fs: Functions, name: string, rest: seq<Fisp>, ctx: FilterContext, fuel: nat)
    requires name !in fs.registry && fuel > 0
    ensures Eval(fs, Str(name), ctx, fuel) == Failure(NoSuchElement("No such filter type " + name))
    ensures Eval(fs, Array([Str(name)] + rest), ctx, fuel) == Failure(NoSuchElement("No such filter type " + name))
    ensures EvalToString(fs, Array([Str(name)] + rest), ctx, fuel) == Success(name)
    ensures EvalToBool(fs, Array([Str(name)] + rest), ctx, fuel) == Success(!IsBlank(name))
  {
  }

  /** An Array whose head is not a Str is its own value, which `build`
      reads as false because it is not empty; evalToBool reads its head
      instead. */
  lemma ValueHeadedArray(fs: Functions, head: Fisp, rest: seq<Fisp>, ctx: FilterContext, fuel: nat)
    requires !head.Str? && fuel > 1
    ensures Eval(fs, Array([head] + rest), ctx, fuel) == Success(Array([head] + rest))
    ensures Build(fs, Array([head] + rest), ctx, fuel) == Success(false)
    ensures EvalToBool(fs, Array([head] + rest), ctx, fuel) == EvalToBool(fs, head, ctx, fuel - 1)
  {
    assert ([head] + rest)[0] == head;
  }

  /** A filter written in parentheses is parsed one level deeper than a
      bare one, so `build` never calls it and reads a non-empty Array: the
      parenthesised form is false whatever the post. */
  lemma ParenthesisedFilterIsFalse(fs: Functions, ctx: FilterContext, fuel: nat)
    requires Bootstrapped(fs) && fuel > 1
    ensures Build(fs, Array([Str("has_embed")]), ctx, fuel) == Success(ctx.post.hasEmbeds)
    ensures Build(fs, Array([Array([Str("has_embed")])]), ctx, fuel) == Success(false)
  {
    assert fs.registry["has_embed"] == HasEmbed;
    var a := Array([Str("has_embed")]);
    assert a.elems[0] == Str("has_embed");
    assert Eval(fs, a, ctx, fuel) == Apply(fs, HasEmbed, a, ctx, fuel - 1);
    ValueHeadedArray(fs, Array([Str("has_embed")]), [], ctx, fuel);
    assert [Array([Str("has_embed")])] + [] == [Array([Str("has_embed")])];
  }

  // ---------------------------------------------------------------------
  // all_of, any_of, not

  /** allMatch: true exactly when every argument is true, false exactly
      when some argument is false after only true ones; an error in
      between is the result. */
  lemma {:induction false} AllTrueMeans(fs: Functions, args: seq<Fisp>, ctx: FilterContext, fuel: nat)
    ensures AllTrue(fs, args, ctx, fuel) == Success(true) <==>
      forall i :: 0 <= i < |args| ==> EvalToBool(fs, args[i], ctx, fuel) == Success(true)
    ensures AllTrue(fs, args, ctx, fuel) == Success(false) <==>
      exists i :: 0 <= i < |args| && EvalToBool(fs, args[i], ctx, fuel) == Success(false) &&
        forall j :: 0 <= j < i ==> EvalToBool(fs, args[j], ctx, fuel) == Success(true)
    decreases |args|
  {
    if |args| > 0 {
      AllTrueMeans(fs, args[1..], ctx, fuel);
      var first := EvalToBool(fs, args[0], ctx, fuel);
      if first == Success(true) {
        assert AllTrue(fs, args, ctx, fuel) == AllTrue(fs, args[1..], ctx, fuel);
        AllShift(fs, args, ctx, fuel, true);
        FirstShift(fs, args, ctx, fuel, false);
      } else if first == Success(false) {
        assert AllTrue(fs, args, ctx, fuel) == Success(false);
        FirstHead(fs, args, ctx, fuel, false);
      } else {
        assert AllTrue(fs, args, ctx, fuel).Failure?;
        FirstBlocked(fs, args, ctx, fuel);
      }
    }
  }

  /** anyMatch: true exactly when some argument is true after only false
      ones, false exactly when every argument is false. */
  lemma {:induction false} AnyTrueMeans(fs: Functions, args: seq<Fisp>, ctx: FilterContext, fuel: nat)
    ensures AnyTrue(fs, args, ctx, fuel) == Success(false) <==>
      forall i :: 0 <= i < |args| ==> EvalToBool(fs, args[i], ctx, fuel) == Success(false)
    ensures AnyTrue(fs, args, ctx, fuel) == Success(true) <==>
      exists i :: 0 <= i < |args| && EvalToBool(fs, args[i], ctx, fuel) == Success(true) &&
        forall j :: 0 <= j < i ==> EvalToBool(fs, args[j], ctx, fuel) == Success(false)
    decreases |args|
  {
    if |args| > 0 {
      AnyTrueMeans(fs, args[1..], ctx, fuel);
      var first := EvalToBool(fs, args[0], ctx, fuel);
      if first == Success(false) {
        assert AnyTrue(fs, args, ctx, fuel) == AnyTrue(fs, args[1..], ctx, fuel);
        AllShift(fs, args, ctx, fuel, false);
        FirstShift(fs, args, ctx, fuel, true);
      } else if first == Success(true) {
        assert AnyTrue(fs, args, ctx, fuel) == Success(true);
        FirstHead(fs, args, ctx, fuel, true);
      } else {
        assert AnyTrue(fs, args, ctx, fuel).Failure?;
        FirstBlocked(fs, args, ctx, fuel);
      }
    }
  }

  /** Every argument reads as `val`. */
  predicate AllAre(fs: Functions, args: seq<Fisp>, ctx: FilterContext, fuel: nat, val: bool) {
    forall i :: 0 <= i < |args| ==> EvalToBool(fs, args[i], ctx, fuel) == Success(val)
  }

  /** Some argument reads as `val` after arguments that all read as `!val`. */
  predicate FirstIs(fs: Functions, args: seq<Fisp>, ctx: FilterContext, fuel: nat, val: bool) {
    exists i :: 0 <= i < |args| && EvalToBool(fs, args[i], ctx, fuel) == Success(val) &&
      forall j :: 0 <= j < i ==> EvalToBool(fs, args[j], ctx, fuel) == Success(!val)
  }

  /** A first argument reading `val` changes nothing about the rest all
      reading `val`. */
  lemma AllShift(fs: Functions, args: seq<Fisp>, ctx: FilterContext, fuel: nat, val: bool)
    requires |args| > 0 && EvalToBool(fs, args[0], ctx, fuel) == Success(val)
    ensures AllAre(fs, args, ctx, fuel, val) <==> AllAre(fs, args[1..], ctx, fuel, val)
  {
    if AllAre(fs, args[1..], ctx, fuel, val) {
      forall i | 0 <= i < |args|
        ensures EvalToBool(fs, args[i], ctx, fuel) == Success(val)
      {
        if i > 0 { assert args[i] == args[1..][i - 1]; }
      }
    }
  }

  /** A first argument reading `!val` is skipped when looking for the
      first `val`. */
  lemma FirstShift(fs: Functions, args: seq<Fisp>, ctx: FilterContext, fuel: nat, val: bool)
    requires |args| > 0 && EvalToBool(fs, args[0], ctx, fuel) == Success(!val)
    ensures FirstIs(fs, args, ctx, fuel, val) <==> FirstIs(fs, args[1..], ctx, fuel, val)
  {
    if FirstIs(fs, args[1..], ctx, fuel, val) {
      var i :| 0 <= i < |args[1..]| && EvalToBool(fs, args[1..][i], ctx, fuel) == Success(val) &&
        forall j :: 0 <= j < i ==> EvalToBool(fs, args[1..][j], ctx, fuel) == Success(!val);
      assert EvalToBool(fs, args[i + 1], ctx, fuel) == Success(val);
      forall j | 0 <= j < i + 1
        ensures EvalToBool(fs, args[j], ctx, fuel) == Success(!val)
      {
        if j > 0 { assert args[j] == args[1..][j - 1]; }
      }
    }
    if FirstIs(fs, args, ctx, fuel, val) {
      var i :| 0 <= i < |args| && EvalToBool(fs, args[i], ctx, fuel) == Success(val) &&
        forall j :: 0 <= j < i ==> EvalToBool(fs, args[j], ctx, fuel) == Success(!val);
      assert i > 0;
      assert EvalToBool(fs, args[1..][i - 1], ctx, fuel) == Success(val);
      forall j | 0 <= j < i - 1
        ensures EvalToBool(fs, args[1..][j], ctx, fuel) == Success(!val)
      {
        assert args[1..][j] == args[j + 1];
      }
    }
  }

  /** A first argument reading `val` is the first `val`, and not every
      argument reads `!val`. */
  lemma FirstHead(fs: Functions, args: seq<Fisp>, ctx: FilterContext, fuel: nat, val: bool)
    requires |args| > 0 && EvalToBool(fs, args[0], ctx, fuel) == Success(val)
    ensures FirstIs(fs, args, ctx, fuel, val) && !AllAre(fs, args, ctx, fuel, !val)
  {
  }

  /** A first argument that fails blocks both readings. */
  lemma FirstBlocked(fs: Functions, args: seq<Fisp>, ctx: FilterContext, fuel: nat)
    requires |args| > 0 && EvalToBool(fs, args[0], ctx, fuel).Failure?
    ensures forall val :: !AllAre(fs, args, ctx, fuel, val) && !FirstIs(fs, args, ctx, fuel, val)
  {
  }

  /** `all_of` and its aliases: a filter that passes exactly when every
      argument does; with no arguments it passes. */
  lemma AllOfMeans(fs: Functions, name: string, args: seq<Fisp>, ctx: FilterContext, fuel: nat)
    requires Bootstrapped(fs) && name in {"all_of", "all", "and"} && fuel > 0
    ensures Build(fs, Array([Str(name)] + args), ctx, fuel + 1) == Success(true) <==>
      forall i :: 0 <= i < |args| ==> EvalToBool(fs, args[i], ctx, fuel) == Success(true)
  {
    assert fs.registry[name] == AllOf;
    var a := Array([Str(name)] + args);
    assert a.elems[0] == Str(name) && Args(a) == args;
    assert Eval(fs, a, ctx, fuel + 1) == Apply(fs, AllOf, a, ctx, fuel);
    AllTrueMeans(fs, args, ctx, fuel);
  }

  /** `any_of` and its aliases: a filter that passes exactly when some
      argument is true after only false ones; with no arguments it fails. */
  lemma AnyOfMeans(fs: Functions, name: string, args: seq<Fisp>, ctx: FilterContext, fuel: nat)
    requires Bootstrapped(fs) && name in {"any_of", "any", "or", "either"} && fuel > 0
    ensures Build(fs, Array([Str(name)] + args), ctx, fuel + 1) == Success(false) <==>
      forall i :: 0 <= i < |args| ==> EvalToBool(fs, args[i], ctx, fuel) == Success(false)
  {
    assert fs.registry[name] == AnyOf;
    var a := Array([Str(name)] + args);
    assert a.elems[0] == Str(name) && Args(a) == args;
    assert Eval(fs, a, ctx, fuel + 1) == Apply(fs, AnyOf, a, ctx, fuel);
    AnyTrueMeans(fs, args, ctx, fuel);
  }

  /** `not` negates its first argument and ignores the others; without an
      argument it reads the empty Array, which has no head, and fails. */
  lemma NotMeans(fs: Functions, x: Fisp, rest: seq<Fisp>, ctx: FilterContext, fuel: nat)
    requires Bootstrapped(fs) && fuel > 0 && EvalToBool(fs, x, ctx, fuel).Success?
    ensures Eval(fs, Array([Str("not"), x] + rest), ctx, fuel + 1) == Success(Bool(!EvalToBool(fs, x, ctx, fuel).value))
    ensures Eval(fs, Str("not"), ctx, fuel + 1).Failure?
    ensures Eval(fs, Array([Str("!")]), ctx, fuel + 1).Failure?
  {
    assert fs.registry["not"] == Not && fs.registry["!"] == Not;
    var a := Array([Str("not"), x] + rest);
    assert a.elems[0] == Str("not") && Argument(a) == x;
    assert Eval(fs, a, ctx, fuel + 1) == Apply(fs, Not, a, ctx, fuel);
    assert Eval(fs, Str("not"), ctx, fuel + 1) == Apply(fs, Not, Array([Str("not")]), ctx, fuel);
    assert Eval(fs, Array([Str("!")]), ctx, fuel + 1) == Apply(fs, Not, Array([Str("!")]), ctx, fuel);
  }

  /** The argument of `not` is read as a boolean, not evaluated as a call:
      a bare name stands for its own non-blankness. */
  lemma NotOfName(fs: Functions, name: string, ctx: FilterContext, fuel: nat)
    requires Bootstrapped(fs) && fuel > 1
    ensures EvalToBool(fs, Array([Str("not"), Str(name)]), ctx, fuel) == Success(IsBlank(name))
  {
    assert fs.registry["not"] == Not;
  }

  // ---------------------------------------------------------------------
  // reason_is, author_is, labels_contains

  /** When every argument has a string value, the search for `target`
      succeeds with whether one of those strings is `target`. */
  lemma {:induction false} AnyEqualsMeans(fs: Functions, args: seq<Fisp>, target: string, ctx: FilterContext, fuel: nat)
    requires forall i :: 0 <= i < |args| ==> EvalToString(fs, args[i], ctx, fuel).Success?
    ensures AnyEquals(fs, args, target, ctx, fuel) ==
      Success(exists i :: 0 <= i < |args| && EvalToString(fs, args[i], ctx, fuel).value == target)
    decreases |args|
  {
    if |args| > 0 {
      AnyEqualsMeans(fs, args[1..], target, ctx, fuel);
      if EvalToString(fs, args[0], ctx, fuel).value != target {
        if exists i :: 0 <= i < |args| && EvalToString(fs, args[i], ctx, fuel).value == target {
          var i :| 0 <= i < |args| && EvalToString(fs, args[i], ctx, fuel).value == target;
          assert args[1..][i - 1] == args[i];
        }
        if exists i :: 0 <= i < |args[1..]| && EvalToString(fs, args[1..][i], ctx, fuel).value == target {
          var i :| 0 <= i < |args[1..]| && EvalToString(fs, args[1..][i], ctx, fuel).value == target;
          assert args[1..][i] == args[i + 1];
        }
      }
    }
  }

  /** The text of each argument that is a Str. */
  function Texts(args: seq<Fisp>): (r: seq<string>)
    requires forall i :: 0 <= i < |args| ==> args[i].Str?
    ensures |r| == |args|
  {
    seq(|args|, i requires 0 <= i < |args| => args[i].s)
  }

  /** With literal arguments, labels_contains asks whether some label is
      one of them. */
  lemma {:induction false} AnyLabelMeans(fs: Functions, labels: seq<string>, args: seq<Fisp>, ctx: FilterContext, fuel: nat)
    requires fuel > 0 && forall i :: 0 <= i < |args| ==> args[i].Str?
    ensures AnyLabel(fs, labels, args, ctx, fuel) ==
      Success(exists l :: 0 <= l < |labels| && labels[l] in Texts(args))
    decreases |labels|
  {
    if |labels| > 0 {
      AnyLabelMeans(fs, labels[1..], args, ctx, fuel);
      AnyEqualsMeans(fs, args, labels[0], ctx, fuel);
      var hit := labels[0] in Texts(args);
      assert hit <==> exists i :: 0 <= i < |args| && EvalToString(fs, args[i], ctx, fuel).value == labels[0] by {
        if hit {
          var i :| 0 <= i < |args| && Texts(args)[i] == labels[0];
          assert EvalToString(fs, args[i], ctx, fuel).value == labels[0];
        }
        if exists i :: 0 <= i < |args| && EvalToString(fs, args[i], ctx, fuel).value == labels[0] {
          var i :| 0 <= i < |args| && EvalToString(fs, args[i], ctx, fuel).value == labels[0];
          assert Texts(args)[i] == labels[0];
        }
      }
      if !hit {
        if exists l :: 0 <= l < |labels| && labels[l] in Texts(args) {
          var l :| 0 <= l < |labels| && labels[l] in Texts(args);
          assert labels[1..][l - 1] == labels[l];
        }
        if exists l :: 0 <= l < |labels[1..]| && labels[1..][l] in Texts(args) {
          var l :| 0 <= l < |labels[1..]| && labels[1..][l] in Texts(args);
          assert labels[1..][l] == labels[l + 1];
        }
      }
    }
  }

  /** Literal arguments evaluate to their own text. */
  lemma LiteralTexts(fs: Functions, args: seq<Fisp>, ctx: FilterContext, fuel: nat)
    requires fuel > 0 && forall i :: 0 <= i < |args| ==> args[i].Str?
    ensures forall i :: 0 <= i < |args| ==> EvalToString(fs, args[i], ctx, fuel) == Success(Texts(args)[i])
  {
  }

  /** `reason_is` with literal arguments: the post has a reason, and it is
      one of them. */
  lemma ReasonIsMeans(fs: Functions, args: seq<Fisp>, ctx: FilterContext, fuel: nat)
    requires Bootstrapped(fs) && fuel > 0 && forall i :: 0 <= i < |args| ==> args[i].Str?
    ensures Eval(fs, Array([Str("reason_is")] + args), ctx, fuel + 1) ==
      Success(Bool(ctx.post.reason.Some? && ctx.post.reason.value in Texts(args)))
  {
    assert fs.registry["reason_is"] == ReasonIs;
    var a := Array([Str("reason_is")] + args);
    assert a.elems[0] == Str("reason_is") && Args(a) == args;
    assert Eval(fs, a, ctx, fuel + 1) == Apply(fs, ReasonIs, a, ctx, fuel);
    if ctx.post.reason.Some? {
      var reason := ctx.post.reason.value;
      LiteralTexts(fs, args, ctx, fuel);
      AnyEqualsMeans(fs, args, reason, ctx, fuel);
      if reason in Texts(args) {
        var i :| 0 <= i < |args| && Texts(args)[i] == reason;
        assert EvalToString(fs, args[i], ctx, fuel).value == reason;
      }
    }
  }

  /** `author_is` with literal arguments: the author's DID is one of them. */
  lemma AuthorIsMeans(fs: Functions, args: seq<Fisp>, ctx: FilterContext, fuel: nat)
    requires Bootstrapped(fs) && fuel > 0 && forall i :: 0 <= i < |args| ==> args[i].Str?
    ensures Eval(fs, Array([Str("author_is")] + args), ctx, fuel + 1) ==
      Success(Bool(ctx.post.authorDid in Texts(args)))
  {
    assert fs.registry["author_is"] == AuthorIs;
    var a := Array([Str("author_is")] + args);
    assert a.elems[0] == Str("author_is") && Args(a) == args;
    assert Eval(fs, a, ctx, fuel + 1) == Apply(fs, AuthorIs, a, ctx, fuel);
    LiteralTexts(fs, args, ctx, fuel);
    AnyEqualsMeans(fs, args, ctx.post.authorDid, ctx, fuel);
    if ctx.post.authorDid in Texts(args) {
      var i :| 0 <= i < |args| && Texts(args)[i] == ctx.post.authorDid;
      assert EvalToString(fs, args[i], ctx, fuel).value == ctx.post.authorDid;
    }
  }

  /** `labels_contains` with literal arguments: one of the post's labels is
      one of them. */
  lemma LabelsContainsMeans(fs: Functions, args: seq<Fisp>, ctx: FilterContext, fuel: nat)
    requires Bootstrapped(fs) && fuel > 0 && forall i :: 0 <= i < |args| ==> args[i].Str?
    ensures Eval(fs, Array([Str("labels_contains")] + args), ctx, fuel + 1) ==
      Success(Bool(exists l :: 0 <= l < |ctx.post.labels| && ctx.post.labels[l] in Texts(args)))
  {
    assert fs.registry["labels_contains"] == LabelsContains;
    var a := Array([Str("labels_contains")] + args);
    assert a.elems[0] == Str("labels_contains") && Args(a) == args;
    assert Eval(fs, a, ctx, fuel + 1) == Apply(fs, LabelsContains, a, ctx, fuel);
    AnyLabelMeans(fs, ctx.post.labels, args, ctx, fuel);
  }

  // ---------------------------------------------------------------------
  // The expressions built-ins stand for

  /** `is_retweet`: the post's reason is the repost reason. */
  lemma IsRetweetMeans(fs: Functions, ctx: FilterContext, fuel: nat)
    requires Bootstrapped(fs) && fuel >= 3
    ensures Eval(fs, Str("is_retweet"), ctx, fuel) == Success(Bool(ctx.post.reason == Some(ReasonRepost)))
  {
    assert fs.registry["is_retweet"] == IsRetweet;
    assert Eval(fs, Str("is_retweet"), ctx, fuel) == Apply(fs, IsRetweet, Array([Str("is_retweet")]), ctx, fuel - 1);
    var args := [Str(ReasonRepost)];
    assert [Str("reason_is")] + args == [Str("reason_is"), Str(ReasonRepost)];
    ReasonIsMeans(fs, args, ctx, fuel - 2);
    assert Texts(args) == [ReasonRepost];
  }

  /** `is_authored_by_self`: the author is the context's user, or has the
      empty DID when the context has no user. */
  lemma IsAuthoredBySelfMeans(fs: Functions, ctx: FilterContext, fuel: nat)
    requires Bootstrapped(fs) && fuel >= 3
    ensures Eval(fs, Str("is_authored_by_self"), ctx, fuel) ==
      Success(Bool(ctx.post.authorDid == ctx.userDid.GetOr("")))
  {
    assert fs.registry["is_authored_by_self"] == IsAuthoredBySelf;
    assert Eval(fs, Str("is_authored_by_self"), ctx, fuel) ==
      Apply(fs, IsAuthoredBySelf, Array([Str("is_authored_by_self")]), ctx, fuel - 1);
    var args := [Str(ctx.userDid.GetOr(""))];
    assert [Str("author_is")] + args == [Str("author_is"), Str(ctx.userDid.GetOr(""))];
    AuthorIsMeans(fs, args, ctx, fuel - 2);
    assert Texts(args) == [ctx.userDid.GetOr("")];
  }

  /** `is_self_retweet` stands for `either (not is_retweet)
      (is_authored_by_self)`. Its first branch negates the non-blank text
      `is_retweet` rather than the filter of that name, so it is always
      false, and the whole filter is `is_authored_by_self`. */
  lemma SelfRetweetIsAuthoredBySelf(fs: Functions, ctx: FilterContext, fuel: nat)
    requires Bootstrapped(fs) && fuel >= 5
    ensures Eval(fs, Str("is_self_retweet"), ctx, fuel) ==
      Success(Bool(ctx.post.authorDid == ctx.userDid.GetOr("")))
    ensures Eval(fs, Str("is_self_retweet"), ctx, fuel) == Eval(fs, Str("is_authored_by_self"), ctx, fuel)
  {
    assert fs.registry["is_self_retweet"] == IsSelfRetweet;
    assert Eval(fs, Str("is_self_retweet"), ctx, fuel) ==
      Apply(fs, IsSelfRetweet, Array([Str("is_self_retweet")]), ctx, fuel - 1);
    SelfRetweetExprMeans(fs, ctx, fuel - 1);
    IsAuthoredBySelfMeans(fs, ctx, fuel);
  }

  /** SelfRetweetExpr: `either` of a branch that is always false and the
      `is_authored_by_self` filter. */
  lemma SelfRetweetExprMeans(fs: Functions, ctx: FilterContext, fuel: nat)
    requires Bootstrapped(fs) && fuel >= 4
    ensures Eval(fs, SelfRetweetExpr, ctx, fuel) == Success(Bool(ctx.post.authorDid == ctx.userDid.GetOr("")))
  {
    var notBranch := Array([Str("not"), Str("is_retweet")]);
    var selfBranch := Array([Str("is_authored_by_self")]);
    SelfRetweetApply(fs, ctx, fuel);
    NotRetweetBranch(fs, ctx, fuel - 1);
    SelfBranch(fs, ctx, fuel - 1);
    SecondOfTwo(fs, notBranch, selfBranch, ctx, fuel - 1);
  }

  /** SelfRetweetExpr calls `either` on its two branches. */
  lemma SelfRetweetApply(fs: Functions, ctx: FilterContext, fuel: nat)
    requires Bootstrapped(fs) && fuel > 0
    ensures Args(SelfRetweetExpr) == [Array([Str("not"), Str("is_retweet")]), Array([Str("is_authored_by_self")])]
    ensures Eval(fs, SelfRetweetExpr, ctx, fuel) == Apply(fs, AnyOf, SelfRetweetExpr, ctx, fuel - 1)
  {
    assert fs.registry["either"] == AnyOf;
    assert SelfRetweetExpr.elems[0] == Str("either");
  }

  /** `(not is_retweet)` reads the word as a string, which is not blank. */
  lemma NotRetweetBranch(fs: Functions, ctx: FilterContext, fuel: nat)
    requires Bootstrapped(fs) && fuel > 1
    ensures EvalToBool(fs, Array([Str("not"), Str("is_retweet")]), ctx, fuel) == Success(false)
  {
    NotOfName(fs, "is_retweet", ctx, fuel);
    assert !IsBlank("is_retweet") by { assert !IsWhitespace("is_retweet"[0]); }
  }

  /** `(is_authored_by_self)` is the filter of that name. */
  lemma SelfBranch(fs: Functions, ctx: FilterContext, fuel: nat)
    requires Bootstrapped(fs) && fuel >= 3
    ensures EvalToBool(fs, Array([Str("is_authored_by_self")]), ctx, fuel) ==
      Success(ctx.post.authorDid == ctx.userDid.GetOr(""))
  {
    var selfBranch := Array([Str("is_authored_by_self")]);
    assert fs.registry["is_authored_by_self"] == IsAuthoredBySelf;
    IsAuthoredBySelfMeans(fs, ctx, fuel);
    assert selfBranch.elems[0] == Str("is_authored_by_self");
    assert Apply(fs, IsAuthoredBySelf, selfBranch, ctx, fuel - 1) == Eval(fs, Str("is_authored_by_self"), ctx, fuel);
  }

  /** anyMatch over two arguments, the first false: the second decides. */
  lemma SecondOfTwo(fs: Functions, x: Fisp, y: Fisp, ctx: FilterContext, fuel: nat)
    requires EvalToBool(fs, x, ctx, fuel) == Success(false) && EvalToBool(fs, y, ctx, fuel).Success?
    ensures AnyTrue(fs, [x, y], ctx, fuel) == EvalToBool(fs, y, ctx, fuel)
  {
    assert [x, y][1..] == [y];
    assert [y][1..] == [];
  }

  /** Lower-case letters and underscores never end an unquoted atom. */
  lemma WordAtom(s: string, t: string)
    requires |s| > 0 && forall i :: 0 <= i < |s| ==> s[i] == '_' || 'a' <= s[i] <= 'z'
    requires t == [] || EndsBareAtom(t[0])
    requires s != "true" && s != "false"
    ensures ParseElems(s + t) == Cons(Str(s), ParseElems(t))
  {
    assert forall i :: 0 <= i < |s| ==> !EndsBareAtom(s[i]);
    BareAtom(s, t);
    ElemsAtom(s, t, Str(s));
  }

  /** A parenthesised single word. */
  lemma OneWordList(w: string, t: string)
    requires |w| > 0 && forall i :: 0 <= i < |w| ==> w[i] == '_' || 'a' <= w[i] <= 'z'
    requires w != "true" && w != "false"
    ensures ParseElems("(" + (w + (")" + t))) == Cons(Array([Str(w)]), ParseElems(t))
  {
    ElemsClose(t);
    WordAtom(w, ")" + t);
    assert [Str(w)] + [] == [Str(w)];
    ElemsList(w + (")" + t), [Str(w)], t);
  }

  /** A parenthesised pair of words. */
  lemma TwoWordList(v: string, w: string, t: string)
    requires |v| > 0 && forall i :: 0 <= i < |v| ==> v[i] == '_' || 'a' <= v[i] <= 'z'
    requires |w| > 0 && forall i :: 0 <= i < |w| ==> w[i] == '_' || 'a' <= w[i] <= 'z'
    requires v != "true" && v != "false" && w != "true" && w != "false"
    ensures ParseElems("(" + (v + (" " + (w + (")" + t))))) == Cons(Array([Str(v), Str(w)]), ParseElems(t))
  {
    ElemsClose(t);
    WordAtom(w, ")" + t);
    ElemsSpace(w + (")" + t));
    WordAtom(v, " " + (w + (")" + t)));
    assert [Str(v)] + ([Str(w)] + []) == [Str(v), Str(w)];
    ElemsList(v + (" " + (w + (")" + t))), [Str(v), Str(w)], t);
  }

  /** A parenthesised pair followed by a parenthesised word. */
  lemma PairThenWord(v: string, w: string, x: string)
    requires |v| > 0 && forall i :: 0 <= i < |v| ==> v[i] == '_' || 'a' <= v[i] <= 'z'
    requires |w| > 0 && forall i :: 0 <= i < |w| ==> w[i] == '_' || 'a' <= w[i] <= 'z'
    requires |x| > 0 && forall i :: 0 <= i < |x| ==> x[i] == '_' || 'a' <= x[i] <= 'z'
    requires v != "true" && v != "false" && w != "true" && w != "false" && x != "true" && x != "false"
    ensures ParseElems("(" + (v + (" " + (w + (")" + (" " + ("(" + (x + (")" + ([])))))))))) == Success(([Array([Str(v), Str(w)]), Array([Str(x)])], []))
  {
    var e: string := [];
    var lastList := "(" + (x + (")" + e));
    var t6 := " " + lastList;
    var last := Array([Str(x)]);
    var pair := Array([Str(v), Str(w)]);
    ElemsEnd();
    OneWordList(x, e);
    assert ParseElems(lastList) == Success(([last], [])) by {
      assert [last] + [] == [last];
    }
    ElemsSpace(lastList);
    assert ParseElems(t6) == Success(([last], []));
    TwoWordList(v, w, t6);
    assert [pair] + [last] == [pair, last];
  }

  /** A word and a space in front of whatever follows. */
  lemma WordThenSpace(u: string, rest: string)
    requires |u| > 0 && forall i :: 0 <= i < |u| ==> u[i] == '_' || 'a' <= u[i] <= 'z'
    requires u != "true" && u != "false"
    ensures ParseElems(u + (" " + rest)) == Cons(Str(u), ParseElems(rest))
  {
    WordAtom(u, " " + rest);
    ElemsSpace(rest);
  }

  /** The text registered for `is_self_retweet`, in the shape the parse
      lemmas take. */
  lemma SelfRetweetWords()
    ensures SelfRetweetSource == "either" + (" " + ("(" + ("not" + (" " + ("is_retweet" + (")" + (" " + ("(" + ("is_authored_by_self" + (")" + ([])))))))))))
  {
    assert ")" + [] == ")";
  }

  lemma ParseSelfRetweetWords()
    ensures Parse("either" + (" " + ("(" + ("not" + (" " + ("is_retweet" + (")" + (" " + ("(" + ("is_authored_by_self" + (")" + ([])))))))))))) == Success(SelfRetweetExpr)
  {
    WordPairWord("either", "not", "is_retweet", "is_authored_by_self");
  }

  /** A word, then a parenthesised pair, then a parenthesised word. */
  lemma WordPairWord(u: string, v: string, w: string, x: string)
    requires |u| > 0 && forall i :: 0 <= i < |u| ==> u[i] == '_' || 'a' <= u[i] <= 'z'
    requires |v| > 0 && forall i :: 0 <= i < |v| ==> v[i] == '_' || 'a' <= v[i] <= 'z'
    requires |w| > 0 && forall i :: 0 <= i < |w| ==> w[i] == '_' || 'a' <= w[i] <= 'z'
    requires |x| > 0 && forall i :: 0 <= i < |x| ==> x[i] == '_' || 'a' <= x[i] <= 'z'
    requires u != "true" && u != "false" && v != "true" && v != "false"
    requires w != "true" && w != "false" && x != "true" && x != "false"
    ensures Parse(u + (" " + ("(" + (v + (" " + (w + (")" + (" " + ("(" + (x + (")" + ([]))))))))))))
      == Success(Array([Str(u), Array([Str(v), Str(w)]), Array([Str(x)])]))
  {
    PairThenWord(v, w, x);
    WordThenSpace(u, "(" + (v + (" " + (w + (")" + (" " + ("(" + (x + (")" + ([]))))))))));
    assert [Str(u)] + [Array([Str(v), Str(w)]), Array([Str(x)])] == [Str(u), Array([Str(v), Str(w)]), Array([Str(x)])];
  }

  /** The text `bootstrap` registers `is_self_retweet` with parses into
      SelfRetweetExpr. */
  lemma ParseSelfRetweetSource()
    ensures Parse(SelfRetweetSource) == Success(SelfRetweetExpr)
  {
    SelfRetweetWords();
    ParseSelfRetweetWords();
  }
}
