/** Fisp ("filter lisp"), the S-expression language post filters are
    written in: its three kinds of value, the parser, the printer,
    truthiness and the casts between kinds, and the conversion from JSON.

    The parser threads the not-yet-read suffix of the input instead of the
    source's mutable cursor; the cursor is `|input| - |rest|`. */
module FispSyntax {
  import opened Results
  import opened Seqs
  import opened JavaChars
  import opened Json

  datatype Fisp =
    | Bool(b: bool)
    | Str(s: string)
    | Array(elems: seq<Fisp>)

  const Backspace: char := 8 as char
  const FormFeed: char := 12 as char

  // ---------------------------------------------------------------------
  // Parsing

  /** The characters that end an unquoted atom. */
  predicate EndsBareAtom(c: char) {
    IsWhitespace(c) || c == '(' || c == ')' || c == '"'
  }

  /** The length of the longest prefix of `s` an unquoted atom can span. */
  function BareRun(s: string): (n: nat)
    ensures n <= |s|
    ensures forall i :: 0 <= i < n ==> !EndsBareAtom(s[i])
    ensures n < |s| ==> EndsBareAtom(s[n])
  {
    if |s| == 0 || EndsBareAtom(s[0]) then 0 else 1 + BareRun(s[1..])
  }

  /** The character an escaped `b`, `f`, `n`, `r` or `t` stands for; every
      other escaped character stands for itself. */
  function Unescape(c: char): char {
    if c == 'b' then Backspace
    else if c == 'f' then FormFeed
    else if c == 'n' then '\n'
    else if c == 'r' then '\r'
    else if c == 't' then '\t'
    else c
  }

  /** StringBuilder.appendCodePoint's check of its argument. A code point in
      the surrogate range has no `char` of its own here. */
  function CodePoint(cp: int): (r: Result<char>)
    ensures r.Success? <==> 0 <= cp < 0xD800 || 0xE000 <= cp <= 0x10FFFF
    ensures r.Success? ==> r.value as int == cp
  {
    if cp < 0 || cp > 0x10FFFF then Failure(IllegalArgument)
    else if 0xD800 <= cp < 0xE000 then Failure(Unrepresentable)
    else Success(cp as char)
  }

  /** The body of a quoted atom, read from just after its opening quote:
      the atom's text and the input after it. A backslash is kept and
      switches on escape mode for the rest of the atom, so a later quote no
      longer ends it. In escape mode `u` reads the next four characters as
      a signed hexadecimal number and then reads the last of them once
      more. */
  function QuotedBody(s: string, escaped: bool): (r: Result<(string, string)>)
    ensures r.Success? ==> |r.value.1| <= |s|
    ensures r.Success? && |s| > 0 && !escaped && s[0] == '"' ==> r.value == ([], s[1..])
    ensures r.Success? && escaped ==> r.value.1 == []
    decreases |s|
  {
    if |s| == 0 then Success(([], []))
    else if escaped && s[0] == 'u' then
      if |s| < 5 then Failure(IndexOutOfBounds)
      else
        var cp :- ParseInt(s[1..5], 16);
        var c :- CodePoint(cp);
        var more :- QuotedBody(s[4..], true);
        Success(([c] + more.0, more.1))
    else if escaped then
      var more :- QuotedBody(s[1..], true);
      Success(([Unescape(s[0])] + more.0, more.1))
    else if s[0] == '"' then Success(([], s[1..]))
    else
      var more :- QuotedBody(s[1..], s[0] == '\\');
      Success(([s[0]] + more.0, more.1))
  }

  /** parseAtom: a quoted atom is always a Str; an unquoted one runs up to
      the next whitespace, parenthesis or quote and is a Bool when it reads
      `true` or `false`. */
  function ParseAtom(s: string): (r: Result<(Fisp, string)>)
    requires |s| > 0 && !IsWhitespace(s[0]) && s[0] != '(' && s[0] != ')'
    ensures r.Success? ==> |r.value.1| < |s|
    ensures r.Success? && s[0] == '"' ==> r.value.0.Str?
    ensures s[0] != '"' ==> r.Success? && !r.value.0.Array?
  {
    if s[0] == '"' then
      var body :- QuotedBody(s[1..], false);
      Success((Str(body.0), body.1))
    else
      var n := BareRun(s);
      var text := s[..n];
      var atom := if text == "true" then Bool(true) else if text == "false" then Bool(false) else Str(text);
      Success((atom, s[n..]))
  }

  /** parseList, read from just after its opening parenthesis (or from the
      start of the input): the elements up to the matching `)` or the end
      of the input, and the input after that `)`. */
  function ParseElems(s: string): (r: Result<(seq<Fisp>, string)>)
    ensures r.Success? ==> |r.value.1| <= |s|
    decreases |s|
  {
    if |s| == 0 then Success(([], []))
    else if IsWhitespace(s[0]) then ParseElems(s[1..])
    else if s[0] == ')' then Success(([], s[1..]))
    else if s[0] == '(' then
      var inner :- ParseElems(s[1..]);
      var more :- ParseElems(inner.1);
      Success(([Array(inner.0)] + more.0, more.1))
    else
      var atom :- ParseAtom(s);
      var more :- ParseElems(atom.1);
      Success(([atom.0] + more.0, more.1))
  }

  /** Fisp.parse: the whole input read as the elements of one Array; input
      after a stray `)` is ignored. */
  function Parse(input: string): (r: Result<Fisp>)
    ensures r.Success? ==> r.value.Array?
    ensures r.Success? <==> ParseElems(input).Success?
  {
    var p :- ParseElems(input);
    Success(Array(p.0))
  }

  // ---------------------------------------------------------------------
  // Printing

  /** A character the printer writes escaped (or, for `"`, inside quotes).
      `defined` is Character.isDefined, a property of the runtime's Unicode
      tables. The source also lists backspace, form feed, newline, return
      and tab, which are ISO control characters already. */
  predicate NeedsEscape(c: char, defined: char -> bool) {
    c == '"' || c == '\\' || IsISOControl(c) || !defined(c)
  }

  /** Whether a Str prints inside quotes. */
  predicate NeedsQuotes(s: string, defined: char -> bool) {
    s == "true" || s == "false" || exists i :: 0 <= i < |s| && NeedsEscape(s[i], defined)
  }

  /** One character of a quoted Str as printed. The quote itself is not
      escaped. */
  function EscapeChar(c: char, defined: char -> bool): (r: string)
    ensures |r| > 0
    ensures !NeedsEscape(c, defined) || c == '"' ==> r == [c]
  {
    if c == '"' then ['"']
    else if c == '\\' then "\\\\"
    else if c == Backspace then "\\b"
    else if c == FormFeed then "\\f"
    else if c == '\n' then "\\n"
    else if c == '\r' then "\\r"
    else if c == '\t' then "\\t"
    else if IsISOControl(c) || !defined(c) then "\\u" + Hex04(c as int)
    else [c]
  }

  /** The printed form of a Str. */
  function PrintStr(s: string, defined: char -> bool): string {
    if NeedsQuotes(s, defined) then
      "\"" + Flatten(seq(|s|, i requires 0 <= i < |s| => EscapeChar(s[i], defined))) + "\""
    else s
  }

  /** The elements of a multi-element Array as printed: each followed by
      one space. */
  function PrintBody(es: seq<Fisp>, defined: char -> bool): string
    decreases es, 0
  {
    if |es| == 0 then "" else PrintNode(es[0], false, defined) + " " + PrintBody(es[1..], defined)
  }

  /** printInternal with the newline layout switched off, as the source
      has it. */
  function PrintNode(v: Fisp, isRoot: bool, defined: char -> bool): string
    decreases v, 1
  {
    match v
    case Bool(b) => if b then "true" else "false"
    case Str(s) => PrintStr(s, defined)
    case Array(es) =>
      if |es| == 0 then (if isRoot then "" else "()")
      else if |es| == 1 then
        (if isRoot then "(" + PrintNode(es[0], false, defined) + ")" else PrintNode(es[0], false, defined))
      else if isRoot then PrintBody(es, defined)
      else "( " + PrintBody(es, defined) + ")"
  }

  /** Fisp.print: a value that is not an Array prints as the one element of
      a root Array. */
  function Print(e: Fisp, defined: char -> bool): string {
    PrintNode(CastArray(e), true, defined)
  }

  // ---------------------------------------------------------------------
  // Truthiness and casts

  /** isTruthy: a Bool is its value, a Str is true when not blank, and an
      Array is true exactly when it is empty. */
  predicate IsTruthy(f: Fisp) {
    match f
    case Array(es) => |es| == 0
    case Bool(b) => b
    case Str(s) => !IsBlank(s)
  }

  /** `cast(Bool.class)`. */
  function CastBool(f: Fisp): (r: Fisp)
    ensures r.Bool?
  {
    Bool(IsTruthy(f))
  }

  /** `cast(Str.class)`: a Str stays as it is, anything else becomes its
      printed form. */
  function CastStr(f: Fisp, defined: char -> bool): (r: Fisp)
    ensures r.Str?
    ensures f.Str? ==> r == f
  {
    if f.Str? then f else Str(Print(f, defined))
  }

  /** `cast(Array.class)`: an Array stays as it is, anything else becomes a
      one-element Array. */
  function CastArray(f: Fisp): (r: Fisp)
    ensures r.Array?
    ensures f.Array? ==> r == f
    ensures !f.Array? ==> |r.elems| == 1 && r.elems[0] == f
  {
    if f.Array? then f else Array([f])
  }

  // ---------------------------------------------------------------------
  // JSON

  /** Fisp.fromJson: an object becomes an Array of `(key value)` pairs, an
      array the Array of its converted elements, a boolean a Bool, a number
      or string its text, and null the empty Str. */
  function FromJson(j: Json): (r: Fisp)
    ensures j.JObject? ==> r.Array? && |r.elems| == |j.members|
    ensures j.JObject? ==> forall i :: 0 <= i < |j.members| ==>
      r.elems[i] == Array([Str(j.members[i].key), FromJson(j.members[i].value)])
    ensures j.JArray? ==> r.Array? && |r.elems| == |j.elems|
    ensures j.JArray? ==> forall i :: 0 <= i < |j.elems| ==> r.elems[i] == FromJson(j.elems[i])
    ensures j.JBool? ==> r == Bool(j.b)
    ensures j.JNumber? ==> r == Str(j.text)
    ensures j.JString? ==> r == Str(j.s)
    ensures j.JNull? ==> r == Str("")
  {
    match j
    case JObject(ms) =>
      Array(seq(|ms|, i requires 0 <= i < |ms| => Array([Str(ms[i].key), FromJson(ms[i].value)])))
    case JArray(es) => Array(seq(|es|, i requires 0 <= i < |es| => FromJson(es[i])))
    case JBool(b) => Bool(b)
    case JNumber(text) => Str(text)
    case JString(s) => Str(s)
    case JNull => Str("")
  }
}
