/** What parsing a printed Fisp value gives back. The printer and the
    parser agree on Arrays none of whose Arrays has exactly one element and
    whose Strs are keywords or plain tokens; the lemmas at the end show the
    values outside that class that do not come back. */
module FispRoundTrip {
  import opened Results
  import opened Seqs
  import opened JavaChars
  import opened FispSyntax

  /** Character.isDefined holds for every printable ASCII character. */
  predicate AsciiDefined(defined: char -> bool) {
    forall c: char :: ' ' <= c <= '~' ==> defined(c)
  }

  /** A Str the printer writes bare and the parser reads back whole. */
  predicate IsToken(s: string, defined: char -> bool) {
    |s| > 0 && forall i :: 0 <= i < |s| ==> !EndsBareAtom(s[i]) && !NeedsEscape(s[i], defined)
  }

  predicate IsKeyword(s: string) {
    s == "true" || s == "false"
  }

  /** The values that survive a print followed by a parse. */
  predicate RoundTrips(e: Fisp, defined: char -> bool) {
    match e
    case Bool(_) => true
    case Str(s) => IsKeyword(s) || IsToken(s, defined)
    case Array(es) => |es| != 1 && forall i :: 0 <= i < |es| ==> RoundTrips(es[i], defined)
  }

  // ---------------------------------------------------------------------
  // Atoms

  lemma {:induction false} BareRunOver(s: string, t: string)
    requires forall i :: 0 <= i < |s| ==> !EndsBareAtom(s[i])
    requires t == [] || EndsBareAtom(t[0])
    ensures BareRun(s + t) == |s|
  {
    if |s| > 0 {
      assert (s + t)[1..] == s[1..] + t;
      BareRunOver(s[1..], t);
    } else {
      assert s + t == t;
    }
  }

  /** An unquoted atom followed by the end of the input, whitespace, a
      parenthesis or a quote reads back as itself. */
  lemma BareAtom(s: string, t: string)
    requires |s| > 0 && forall i :: 0 <= i < |s| ==> !EndsBareAtom(s[i])
    requires t == [] || EndsBareAtom(t[0])
    ensures (s + t)[0] == s[0] && !EndsBareAtom(s[0])
    ensures ParseAtom(s + t) ==
      Success((if s == "true" then Bool(true) else if s == "false" then Bool(false) else Str(s), t))
  {
    BareRunOver(s, t);
    assert (s + t)[..|s|] == s && (s + t)[|s|..] == t;
  }

  /** A quote-free, backslash-free text followed by a closing quote reads
      back as itself. */
  lemma {:induction false} QuotedPlain(s: string, t: string)
    requires forall i :: 0 <= i < |s| ==> s[i] != '"' && s[i] != '\\'
    ensures QuotedBody(s + "\"" + t, false) == Success((s, t))
  {
    if |s| > 0 {
      assert (s + "\"" + t)[1..] == s[1..] + "\"" + t;
      QuotedPlain(s[1..], t);
      assert [s[0]] + s[1..] == s;
    } else {
      assert s + "\"" + t == "\"" + t;
    }
  }

  /** Characters that need no escape print as themselves. */
  lemma {:induction false} EscapePlain(s: string, defined: char -> bool)
    requires forall i :: 0 <= i < |s| ==> !NeedsEscape(s[i], defined)
    ensures Flatten(seq(|s|, i requires 0 <= i < |s| => EscapeChar(s[i], defined))) == s
  {
    var parts := seq(|s|, i requires 0 <= i < |s| => EscapeChar(s[i], defined));
    if |s| > 0 {
      assert parts[1..] == seq(|s| - 1, i requires 0 <= i < |s| - 1 => EscapeChar(s[1..][i], defined));
      EscapePlain(s[1..], defined);
      assert [s[0]] + s[1..] == s;
    }
  }

  /** `true` and `false` as Strs print in quotes and read back as Strs. */
  lemma QuotedKeyword(s: string, t: string, defined: char -> bool)
    requires IsKeyword(s) && AsciiDefined(defined)
    ensures PrintStr(s, defined) == "\"" + s + "\""
    ensures ParseAtom("\"" + s + "\"" + t) == Success((Str(s), t))
  {
    assert forall i :: 0 <= i < |s| ==> ' ' <= s[i] <= '~';
    EscapePlain(s, defined);
    QuotedPlain(s, t);
    AfterOpenQuote(s, t);
  }

  lemma AfterOpenQuote(s: string, t: string)
    ensures |"\"" + s + "\"" + t| > 0 && ("\"" + s + "\"" + t)[0] == '"'
    ensures ("\"" + s + "\"" + t)[1..] == s + "\"" + t
  {
  }

  /** A token prints bare. */
  lemma TokenPrintsBare(s: string, defined: char -> bool)
    requires IsToken(s, defined) && !IsKeyword(s)
    ensures PrintStr(s, defined) == s
  {
  }

  // ---------------------------------------------------------------------
  // Lists

  /** One more element in front of a parse result. */
  function Cons(e: Fisp, r: Result<(seq<Fisp>, string)>): Result<(seq<Fisp>, string)> {
    if r.Success? then Success(([e] + r.value.0, r.value.1)) else r
  }

  /** An atom in element position. */
  lemma ElemsAtom(s: string, t: string, a: Fisp)
    requires |s| > 0 && !IsWhitespace(s[0]) && s[0] != '(' && s[0] != ')'
    requires ParseAtom(s + t) == Success((a, t))
    ensures ParseElems(s + t) == Cons(a, ParseElems(t))
  {
    assert (s + t)[0] == s[0];
  }

  /** A parenthesised list in element position. */
  lemma ElemsList(body: string, es: seq<Fisp>, t: string)
    requires ParseElems(body) == Success((es, t))
    ensures ParseElems("(" + body) == Cons(Array(es), ParseElems(t))
  {
    assert ("(" + body)[0] == '(' && ("(" + body)[1..] == body;
  }

  /** Leading whitespace is skipped. */
  lemma ElemsSpace(s: string)
    ensures ParseElems(" " + s) == ParseElems(s)
  {
    assert (" " + s)[0] == ' ' && (" " + s)[1..] == s;
  }

  /** The end of the input ends the list. */
  lemma ElemsEnd()
    ensures ParseElems([]) == Success(([], []))
  {
  }

  /** A closing parenthesis ends the list. */
  lemma ElemsClose(t: string)
    ensures ParseElems(")" + t) == Success(([], t))
  {
    assert (")" + t)[0] == ')' && (")" + t)[1..] == t;
  }

  /** A printed Bool or Str followed by a space parses as itself in front
      of whatever the rest parses as. */
  lemma ParsePrintedAtom(e: Fisp, t: string, defined: char -> bool)
    requires !e.Array? && RoundTrips(e, defined) && AsciiDefined(defined)
    requires |t| > 0 && t[0] == ' '
    ensures ParseElems(PrintNode(e, false, defined) + t) == Cons(e, ParseElems(t))
  {
    if e.Bool? {
      var p := if e.b then "true" else "false";
      BareAtom(p, t);
      ElemsAtom(p, t, e);
    } else if IsKeyword(e.s) {
      QuotedKeyword(e.s, t, defined);
      assert "\"" + e.s + "\"" + t == ("\"" + e.s + "\"") + t;
      ElemsAtom("\"" + e.s + "\"", t, e);
    } else {
      TokenPrintsBare(e.s, defined);
      BareAtom(e.s, t);
      ElemsAtom(e.s, t, e);
    }
  }

  /** A printed empty Array, `()`, parses as itself. */
  lemma ParsePrintedEmpty(t: string, defined: char -> bool)
    ensures ParseElems(PrintNode(Array([]), false, defined) + t) == Cons(Array([]), ParseElems(t))
  {
    ElemsClose(t);
    ElemsList(")" + t, [], t);
    assert PrintNode(Array([]), false, defined) + t == "(" + (")" + t);
  }

  /** A printed value followed by a space parses as that value in front of
      whatever the rest parses as. */
  lemma {:induction false} ParsePrinted(e: Fisp, t: string, defined: char -> bool)
    requires RoundTrips(e, defined) && AsciiDefined(defined)
    requires |t| > 0 && t[0] == ' '
    ensures ParseElems(PrintNode(e, false, defined) + t) == Cons(e, ParseElems(t))
    decreases e, 1
  {
    match e
    case Bool(_) => ParsePrintedAtom(e, t, defined);
    case Str(_) => ParsePrintedAtom(e, t, defined);
    case Array(es) =>
      if |es| == 0 {
        ParsePrintedEmpty(t, defined);
      } else {
        ParseBody(es, ")" + t, defined);
        assert (")" + t)[1..] == t;
        ParsePrintedList(es, t, defined);
      }
  }

  /** Brackets around a body, regrouped from the right. */
  lemma Regroup(b: string, t: string)
    ensures "( " + b + ")" + t == "(" + (" " + (b + (")" + t)))
  {
  }

  /** A printed Array of two or more elements, given that its body parses
      back. */
  lemma ParsePrintedList(es: seq<Fisp>, t: string, defined: char -> bool)
    requires |es| >= 2
    requires ParseElems(PrintBody(es, defined) + (")" + t)) == Success((es, t))
    ensures ParseElems(PrintNode(Array(es), false, defined) + t) == Cons(Array(es), ParseElems(t))
  {
    var body := PrintBody(es, defined);
    var x := body + (")" + t);
    assert PrintNode(Array(es), false, defined) == "( " + body + ")";
    Regroup(body, t);
    ElemsSpace(x);
    ElemsList(" " + x, es, t);
  }

  /** The printed elements of an Array, followed by the end of the input
      or by its closing parenthesis, parse back as those elements. */
  lemma {:induction false} ParseBody(es: seq<Fisp>, close: string, defined: char -> bool)
    requires forall i :: 0 <= i < |es| ==> RoundTrips(es[i], defined)
    requires AsciiDefined(defined)
    requires close == [] || close[0] == ')'
    ensures ParseElems(PrintBody(es, defined) + close) == Success((es, if close == [] then [] else close[1..]))
    decreases es, 0
  {
    if |es| == 0 {
      assert PrintBody(es, defined) + close == close;
      if close != [] {
        ElemsClose(close[1..]);
        assert ")" + close[1..] == close;
      }
    } else {
      var rest := PrintBody(es[1..], defined) + close;
      BodyCons(es, close, defined);
      ParseBody(es[1..], close, defined);
      ElemsSpace(rest);
      ParsePrinted(es[0], " " + rest, defined);
      HeadTail(es);
    }
  }

  /** The printed elements with the first one split off. */
  lemma BodyCons(es: seq<Fisp>, close: string, defined: char -> bool)
    requires |es| > 0
    ensures PrintBody(es, defined) + close ==
      PrintNode(es[0], false, defined) + (" " + (PrintBody(es[1..], defined) + close))
  {
    var node := PrintNode(es[0], false, defined);
    var rest := PrintBody(es[1..], defined);
    assert PrintBody(es, defined) == node + " " + rest;
    StringAssoc(node, " ", rest, close);
  }

  lemma StringAssoc(a: string, b: string, c: string, d: string)
    ensures a + b + c + d == a + (b + (c + d))
  {
  }

  lemma HeadTail(es: seq<Fisp>)
    requires |es| > 0
    ensures [es[0]] + es[1..] == es
  {
  }

  /** Printing then parsing gives back every Array that has no
      one-element Array inside it and whose Strs are keywords or tokens. */
  lemma RoundTrip(e: Fisp, defined: char -> bool)
    requires e.Array? && RoundTrips(e, defined) && AsciiDefined(defined)
    ensures Parse(Print(e, defined)) == Success(e)
  {
    if |e.elems| > 0 {
      ParseBody(e.elems, [], defined);
      assert PrintBody(e.elems, defined) + [] == PrintBody(e.elems, defined);
    }
  }

  /** Casting a round-tripping Array to a Str and parsing that Str gives
      back the Array. */
  lemma CastStrParses(e: Fisp, defined: char -> bool)
    requires e.Array? && RoundTrips(e, defined) && AsciiDefined(defined)
    ensures Parse(CastStr(e, defined).s) == Success(e)
  {
    RoundTrip(e, defined);
  }

  // ---------------------------------------------------------------------
  // What the parser accepts

  /** Without a backslash in the input nothing can fail: every error of the
      parser comes from a `\u` escape. */
  lemma {:induction false} QuotedNoBackslash(s: string)
    requires forall i :: 0 <= i < |s| ==> s[i] != '\\'
    ensures QuotedBody(s, false).Success?
  {
    if |s| > 0 && s[0] != '"' {
      QuotedNoBackslash(s[1..]);
    }
  }

  lemma {:induction false} ElemsNoBackslash(s: string)
    requires forall i :: 0 <= i < |s| ==> s[i] != '\\'
    ensures ParseElems(s).Success?
    ensures forall i :: 0 <= i < |ParseElems(s).value.1| ==> ParseElems(s).value.1[i] != '\\'
    decreases |s|
  {
    if |s| == 0 || s[0] == ')' {
    } else if IsWhitespace(s[0]) {
      ElemsNoBackslash(s[1..]);
    } else if s[0] == '(' {
      ElemsNoBackslash(s[1..]);
      var inner := ParseElems(s[1..]).value;
      ElemsNoBackslash(inner.1);
    } else {
      if s[0] == '"' {
        QuotedNoBackslash(s[1..]);
        QuotedSuffix(s[1..], false);
      }
      var atom := ParseAtom(s).value;
      assert atom.1 == s[|s| - |atom.1|..];
      ElemsNoBackslash(atom.1);
    }
  }

  /** What the quoted-atom reader leaves unread is a suffix of its input. */
  lemma {:induction false} QuotedSuffix(s: string, escaped: bool)
    requires QuotedBody(s, escaped).Success?
    ensures QuotedBody(s, escaped).value.1 == s[|s| - |QuotedBody(s, escaped).value.1|..]
    decreases |s|
  {
    if |s| == 0 {
    } else if escaped && s[0] == 'u' {
      QuotedSuffix(s[4..], true);
    } else if escaped {
      QuotedSuffix(s[1..], true);
    } else if s[0] != '"' {
      QuotedSuffix(s[1..], s[0] == '\\');
    }
  }

  lemma ParseNoBackslash(input: string)
    requires forall i :: 0 <= i < |input| ==> input[i] != '\\'
    ensures Parse(input).Success?
  {
    ElemsNoBackslash(input);
  }

  /** Unquoted `true` and `false` are Bools; quoted, they are Strs. */
  lemma Keywords()
    ensures Parse("true") == Success(Array([Bool(true)]))
    ensures Parse("\"false\"") == Success(Array([Str("false")]))
  {
    ElemsEnd();
    BareAtom("true", []);
    assert "true" + [] == "true";
    ElemsAtom("true", [], Bool(true));
    assert [Bool(true)] + [] == [Bool(true)];
    QuotedPlain("false", []);
    assert "\"false\"" + [] == "\"false\"";
    assert "\"false\""[1..] == "false" + "\"" + [];
    ElemsAtom("\"false\"", [], Str("false"));
    assert [Str("false")] + [] == [Str("false")];
  }

  /** A stray `)` ends the input; an unclosed `(` or quote is closed by the
      end of the input. */
  lemma Unbalanced()
    ensures Parse(")(a)") == Success(Array([]))
    ensures Parse("(a") == Success(Array([Array([Str("a")])]))
    ensures Parse("\"a") == Success(Array([Str("a")]))
  {
    ElemsClose("(a)");
    assert ")" + "(a)" == ")(a)";
    ElemsEnd();
    BareAtom("a", []);
    assert "a" + [] == "a";
    ElemsAtom("a", [], Str("a"));
    assert [Str("a")] + [] == [Str("a")];
    ElemsList("a", [Str("a")], []);
    assert [Array([Str("a")])] + [] == [Array([Str("a")])];
    assert "(" + "a" == "(a";
    assert "\"a"[1..] == "a" && "a"[1..] == [];
    assert "\"a" + [] == "\"a";
    ElemsAtom("\"a", [], Str("a"));
  }

  // ---------------------------------------------------------------------
  // What does not come back

  /** A one-element root prints in parentheses, which parse as one more
      Array. */
  lemma SingleRootGainsALevel(defined: char -> bool)
    requires AsciiDefined(defined)
    ensures Print(Array([Str("a")]), defined) == "(a)"
    ensures Parse("(a)") == Success(Array([Array([Str("a")])]))
  {
    assert defined('a');
    TokenPrintsBare("a", defined);
    BareAtom("a", ")");
    ElemsAtom("a", ")", Str("a"));
    ElemsClose([]);
    ElemsEnd();
    assert ")" + [] == ")";
    assert "a" + ")" == "a)";
    assert [Str("a")] + [] == [Str("a")];
    ElemsList("a)", [Str("a")], []);
    assert [Array([Str("a")])] + [] == [Array([Str("a")])];
    assert "(" + "a)" == "(a)";
  }

  /** A nested one-element Array prints as its element alone, so it comes
      back without its Array. */
  lemma NestedSingleLosesItsLevel(x: Fisp, y: Fisp, defined: char -> bool)
    requires RoundTrips(x, defined) && RoundTrips(y, defined) && AsciiDefined(defined)
    ensures Parse(Print(Array([x, Array([y])]), defined)) == Success(Array([x, y]))
    ensures Array([x, Array([y])]) != Array([x, y])
  {
    var es := [x, Array([y])];
    var fs := [x, y];
    assert PrintNode(Array([y]), false, defined) == PrintNode(y, false, defined);
    assert PrintBody([Array([y])], defined) == PrintBody([y], defined) by {
      assert [Array([y])][1..] == [] && [y][1..] == [];
    }
    assert PrintBody(es, defined) == PrintBody(fs, defined) by {
      assert es[1..] == [Array([y])] && fs[1..] == [y];
    }
    assert Print(Array(es), defined) == PrintBody(es, defined);
    assert Print(Array(fs), defined) == PrintBody(fs, defined);
    assert forall i :: 0 <= i < |fs| ==> RoundTrips(fs[i], defined);
    RoundTrip(Array(fs), defined);
    assert Array([y]) != y;
  }

  /** The printer writes a quote inside a quoted Str unescaped, so the
      quote ends the atom early. */
  lemma QuoteIsNotEscaped(defined: char -> bool)
    ensures Print(Str("\""), defined) == "(\"\"\")"
    ensures Parse("(\"\"\")") == Success(Array([Array([Str(""), Str(")")])]))
  {
    PrintQuote(defined);
    ParseQuoteList();
  }

  lemma PrintQuote(defined: char -> bool)
    ensures Print(Str("\""), defined) == "(\"\"\")"
  {
    assert NeedsEscape("\""[0], defined);
    var parts := seq(1, i requires 0 <= i < 1 => EscapeChar("\""[i], defined));
    assert parts == ["\""];
    assert parts[1..] == [];
    assert Flatten(parts) == "\"";
  }

  /** The printed text above read back: an empty Str, then `)` as a Str. */
  lemma ParseQuoteList()
    ensures Parse("(\"\"\")") == Success(Array([Array([Str(""), Str(")")])]))
  {
    QuoteParenElems();
    ElemsList("\"\"\")", [Str(""), Str(")")], []);
    assert "(" + "\"\"\")" == "(\"\"\")";
    assert [Array([Str(""), Str(")")])] + [] == [Array([Str(""), Str(")")])];
  }

  lemma QuoteParenElems()
    ensures ParseElems("\"\"\")") == Success(([Str(""), Str(")")], []))
  {
    assert ("\"\"" + "\")")[1..] == "\"\")";
    ElemsAtom("\"\"", "\")", Str(""));
    assert "\")"[1..] == ")" && ")"[1..] == [];
    assert "\")" + [] == "\")";
    QuotedStep(")", false);
    assert [')'] + [] == ")";
    ElemsAtom("\")", [], Str(")"));
    ElemsEnd();
    assert [Str(")")] + [] == [Str(")")];
    assert [Str("")] + [Str(")")] == [Str(""), Str(")")];
    assert "\"\"" + "\")" == "\"\"\")";
  }

  /** One more character in front of a quoted atom's text. */
  function Prepend(c: char, r: Result<(string, string)>): Result<(string, string)> {
    if r.Success? then Success(([c] + r.value.0, r.value.1)) else r
  }

  /** One character of a quoted atom other than a closing quote or an
      escaped `u`: it is kept (unescaped in escape mode), and a backslash
      switches escape mode on. */
  lemma QuotedStep(s: string, escaped: bool)
    requires |s| > 0 && !(escaped && s[0] == 'u') && !(!escaped && s[0] == '"')
    ensures QuotedBody(s, escaped) ==
      Prepend(if escaped then Unescape(s[0]) else s[0], QuotedBody(s[1..], escaped || s[0] == '\\'))
  {
  }

  /** In escape mode the rest of the input, up to its end, is the atom's
      text, each character unescaped (when there is no further `u`). */
  lemma {:induction false} EscapedRest(s: string)
    requires forall i :: 0 <= i < |s| ==> s[i] != 'u'
    ensures QuotedBody(s, true) == Success((seq(|s|, i requires 0 <= i < |s| => Unescape(s[i])), []))
  {
    if |s| > 0 {
      EscapedRest(s[1..]);
      QuotedStep(s, true);
      var tail := seq(|s| - 1, i requires 0 <= i < |s| - 1 => Unescape(s[1..][i]));
      assert QuotedBody(s[1..], true) == Success((tail, []));
      assert QuotedBody(s, true) == Success(([Unescape(s[0])] + tail, []));
      assert seq(|s|, i requires 0 <= i < |s| => Unescape(s[i])) == [Unescape(s[0])] + tail;
    } else {
      assert seq(|s|, i requires 0 <= i < |s| => Unescape(s[i])) == [];
    }
  }

  /** After a backslash the atom never leaves escape mode: the quote meant
      to close it is read as text, and so is everything after it. The
      backslash itself is kept. */
  lemma EscapeModeNeverEnds()
    ensures Parse("\"a\\\" x") == Success(Array([Str("a\\\" x")]))
  {
    EscapeBody();
    QuotedOnly("a\\\" x", "a\\\" x");
    assert "\"" + "a\\\" x" == "\"a\\\" x";
  }

  /** The body of the atom above, read up to the end of the input. */
  lemma EscapeBody()
    ensures QuotedBody("a\\\" x", false) == Success(("a\\\" x", []))
  {
    var s := "a\\\" x";
    EscapedRest("\" x");
    assert seq(3, i requires 0 <= i < 3 => Unescape("\" x"[i])) == "\" x";
    assert s[1..] == "\\\" x" && s[1..][1..] == "\" x";
    QuotedStep(s[1..], false);
    assert ['\\'] + "\" x" == s[1..];
    QuotedStep(s, false);
    assert [s[0]] + s[1..] == s;
  }

  /** An input that is one quoted atom whose body runs to the end of the
      input parses as a list of that one Str. */
  lemma QuotedOnly(body: string, text: string)
    requires QuotedBody(body, false) == Success((text, []))
    ensures Parse("\"" + body) == Success(Array([Str(text)]))
  {
    var s := "\"" + body;
    assert s[1..] == body;
    assert s + [] == s;
    ElemsAtom(s, [], Str(text));
    ElemsEnd();
    assert [Str(text)] + [] == [Str(text)];
  }

  /** After `\u` and four hex digits the last digit is read a second time. */
  lemma UnicodeEscapeRereadsLastDigit()
    ensures Parse("\"\\u0041\"") == Success(Array([Str("\\A1\"")]))
  {
    UnicodeBody();
    QuotedOnly("\\u0041\"", "\\A1\"");
    assert "\"" + "\\u0041\"" == "\"\\u0041\"";
  }

  lemma Hex0041()
    ensures ParseInt("0041", 16) == Success(0x41)
  {
    assert "0041"[..3] == "004" && "004"[..2] == "00" && "00"[..1] == "0" && "0"[..0] == "";
    assert DigitsValue("0", 16) == 0;
    assert DigitsValue("00", 16) == 0;
    assert DigitsValue("004", 16) == 4;
    assert DigitsValue("0041", 16) == 0x41;
    assert forall i :: 0 <= i < 4 ==> DigitValue("0041"[i], 16) >= 0;
  }

  /** The body of the atom above: `\u0041` gives `A`, then the `1` again. */
  lemma UnicodeBody()
    ensures QuotedBody("\\u0041\"", false) == Success(("\\A1\"", []))
  {
    var s := "\\u0041\"";
    Hex0041();
    EscapedRest("1\"");
    assert seq(2, i requires 0 <= i < 2 => Unescape("1\""[i])) == "1\"";
    assert s[1..] == "u0041\"" && s[1..][1..5] == "0041" && s[1..][4..] == "1\"";
    assert CodePoint(0x41) == Success('A');
    assert ['A'] + "1\"" == "A1\"";
    assert QuotedBody(s[1..], true) == Success(("A1\"", []));
    QuotedStep(s, false);
    assert ['\\'] + "A1\"" == "\\A1\"";
  }
}
