# buskymore in Dafny

buskymore reposts Bluesky posts to Discord. It polls user and feed timelines,
filters each post with a small Lisp-like filter language called Fisp, and
sends the posts that pass at a rate the Discord API tolerates. This project
models the four pure cores of that pipeline and proves properties about them.

- **Fisp** (`PostFilter.java`). The value type (Array, Bool and Str), its
  parser and printer, and truthiness and the three casts. Also `fromJson`,
  the function registry and the three evaluators (`eval`, `evalToString`,
  `evalToBool`), `build`, and every built-in `bootstrap` registers except
  `contains_regex`. Finally, the translation of `extract` arguments into a
  JSONPath query (`makeJsonPathSelectorsFromFisp`). Modules: `FispSyntax`,
  `FispRoundTrip`, `FispEval`, `FispEvalProperties` and `ExtractProperties`.
- **JSONPath** (`JsonPath.java`). Child and descendant segments over name,
  wildcard, index and array-slice selectors, as RFC 9535 defines them
  (sections 2.3.1 to 2.3.4 and 2.5). Modules: `JsonPath`,
  `JsonPathProperties` and `JsonPathExamples`. `JsonPathExamples` replays
  the repository's JsonPath tests on the RFC's bookstore document.
- **Feed getter** (`BskyPostGetter.java`). The checkpoint key of a source,
  the tab-separated checkpoint file (read and write), and the cutoff and
  per-source filters. Also the reading of a `getFeed` / `getAuthorFeed`
  response, the merge of a round's posts into the checkpoints, and the
  stable sort by time. Modules: `FeedGetter` and `FeedGetterProperties`.
- **Rate-limited executor** (`RateLimitedExecutor.java`). Modelled as a
  step function. The state is the task deque, whether the last task is
  done, the pause, the extra delay and the scheduler's cadence. Each public
  method is one step, and so is each scheduler tick, with `now` passed in as
  integer milliseconds. Modules: `RateLimiter` and `RateLimiterProperties`.

Support modules:
- `Results` holds Option, Result and the Java exceptions, which are modelled
  as `Failure` values.
- `JavaChars` holds the `Character` and `Integer` methods the code relies
  on, and `String.split`.
- `Json` is Gson's tree.
- `Bsky` holds the Bluesky type names.
- `Seqs` holds `Flatten`.

Every exception the code can throw on a path is a `Failure` in the model.
Examples are an empty Array's missing head, an unregistered filter name, a
bad `\u` escape, a negative index, a slice index that wraps past the `int`
range, and a duplicate checkpoint key. Where the
code and its evident design part ways, the model follows the code and proves
the consequence:

- **JSONPath slices.** A negative slice bound normalises to `size - i`, not
  to RFC 9535's `size + i`. So `[::-1]` selects nothing
  (`JsonPathProperties.ReverseSliceIsEmpty` and `ReverseSliceDiffersFromRfc`).
  Slice bounds and indices are Java `int`s, and the model wraps them where
  Java does. `size - i` can wrap to a negative bound, which clamps to the
  array's edge (`FarNegativeStartFromZero`, `MinEndReachesZero`,
  `ReverseSliceOfHugeArray`). An ascending index that steps past the `int`
  range wraps negative, and reading it throws (`HugeStepWraps`).
- **JSONPath indices.** The index selector has no negative indices. A
  negative index into any array is an IndexOutOfBoundsException.
- **The `..` argument of `extract`** makes a child segment, not a
  descendant segment (`ExtractProperties.DoubleDotIsChild`).
- **Quoted atoms.** In a quoted atom, a backslash turns on escape mode for
  the rest of the atom. The backslash itself is kept, and a later quote no
  longer closes the atom. A `\u` escape then reads its last hex digit a
  second time. The printer also writes `"` inside quotes unescaped. So
  printing and parsing round-trip only for the Strs the printer leaves bare
  and for the keywords `true` and `false`
  (`FispRoundTrip.RoundTrip`, `EscapeModeNeverEnds` and
  `QuoteIsNotEscaped`).
- **One-element Arrays.** A one-element Array nested inside another Array
  prints as its element alone, so it loses its level
  (`FispRoundTrip.NestedSingleLosesItsLevel`). A one-element root prints in
  parentheses, so it gains one (`SingleRootGainsALevel`).
- **`is_self_retweet`** expands to `either (not is_retweet)
  (is_authored_by_self)`. Its `not` reads the text `is_retweet` as a
  non-blank string, so that branch is always false, and the filter is
  exactly `is_authored_by_self` (`FispEvalProperties.SelfRetweetIsAuthoredBySelf`).
- **`build` treats an Array that is not a call as true only when it is
  empty.** A filter written in extra parentheses is therefore always false
  (`FispEvalProperties.ParenthesisedFilterIsFalse`).

Time units:
- An `Instant` in the feed getter is an integer number of nanoseconds.
- A `Duration` is an integer number of nanoseconds.
- The executor's clock is integer milliseconds.

Java's truncating division and `Duration.dividedBy` are written out, since
Dafny's `/` is Euclidean.

Things outside the code are parameters:
- `Character.isDefined`;
- `Instant.parse` and `Instant.toString`;
- the `java.net.URI` syntax check;
- the HTTP responses;
- the iteration order of a `HashMap`.

## Model

| member | source | states |
|---|---|---|
| JavaChars.ParseInt | src/main/java/com/williambl/buskymore/PostFilter.java:496 | Integer.parseInt: succeeds exactly on an optional sign followed by at least one digit whose value fits a Java `int`, and then yields that value; any other text is a NumberFormatException naming it |
| JavaChars.ParseSigned | src/main/java/com/williambl/buskymore/PostFilter.java:501-505 | parseInt reads back the decimal text of every `int`, so the numbers of a slice written out are read back exactly |
| JavaChars.Hex04 | src/main/java/com/williambl/buskymore/PostFilter.java:204 | the `%04x` escape of a character is at least four upper-case hex digits that spell its code point, with no leading zero beyond the padding |
| JavaChars.Hex04Parses | src/main/java/com/williambl/buskymore/PostFilter.java:204 | Integer.parseInt in radix 16 reads the escape's digits back as the code point |
| JavaChars.Wrap32 | src/main/java/com/williambl/buskymore/JsonPath.java:146 | Java `int` arithmetic: an exact result inside the range is kept, one just above it loses 2^32, and the result always differs from the exact one by a multiple of 2^32 |
| JavaChars.SplitJoin | src/main/java/com/williambl/buskymore/BskyPostGetter.java:71-73 | splitting at a separator recovers the fields that were joined with it, when no field holds the separator |
| JavaChars.JoinSplit | src/main/java/com/williambl/buskymore/BskyPostGetter.java:71-73 | joining the fields of a split puts back every separator, so splitting loses nothing |
| JavaChars.JavaSplit | src/main/java/com/williambl/buskymore/BskyPostGetter.java:71 | String.split returns the whole input when the separator does not occur |
| Json.Lookup | src/main/java/com/williambl/buskymore/JsonPath.java:117 | a member lookup finds nothing exactly when no member has the key, and otherwise a value stored under the key |
| Json.Get | src/main/java/com/williambl/buskymore/BskyPostGetter.java:209-210 | dereferencing `get(key)` succeeds exactly when the object has the key, with the stored value |
| Json.GetObject | src/main/java/com/williambl/buskymore/BskyPostGetter.java:207-208 | `getAsJsonObject(key)` succeeds exactly when the member exists and is an object |
| Json.GetAsString | src/main/java/com/williambl/buskymore/BskyPostGetter.java:204 | `getAsString` gives a string's or number's text and fails on null, objects and arrays not of one element |
| Json.Children | src/main/java/com/williambl/buskymore/JsonPath.java:81-89 | the children of a node are strictly inside it, and a primitive has none |
| JsonPath.DescendantsAndSelf | src/main/java/com/williambl/buskymore/JsonPath.java:91-100 | the expansion of a node starts with the node and holds nothing outside it |
| JsonPath.Normalise | src/main/java/com/williambl/buskymore/JsonPath.java:145-147 | a non-negative bound is kept; a negative one becomes `size - i`, past the end of the array while that fits an `int`, and a negative value once it wraps |
| JsonPath.SliceIndices | src/main/java/com/williambl/buskymore/JsonPath.java:150-186 | a slice only visits indices inside the array; step 0 visits none; a positive step visits lower, lower+step, … below the upper bound and no further; a negative step visits upper, upper+step, … above the lower bound and no further |
| JsonPath.SelectorSelect | src/main/java/com/williambl/buskymore/JsonPath.java:113-191 | a selector fails exactly on a negative index into an array longer than it, or on an ascending slice whose next index passes the `int` range; every node it yields lies inside the node it was applied to |
| JsonPath.Select | src/main/java/com/williambl/buskymore/JsonPath.java:54-60 | the empty path yields the root alone |
| JsonPathProperties.SelectFromAppend | src/main/java/com/williambl/buskymore/JsonPath.java:54-60 | a path split in two is the second part applied to the first part's result, and a failure in the first part is the result |
| JsonPathProperties.SelectEachAppend | src/main/java/com/williambl/buskymore/JsonPath.java:63-69 | a segment's selectors over two node lists give the two results concatenated, in order |
| JsonPathProperties.DescendantSegmentMatchesRfc | src/main/java/com/williambl/buskymore/JsonPath.java:70-76 | the descendant segment (expand the node, then select) equals the recursive definition of section 2.5.2 of RFC 9535: the node's own matches, then each child's, in order |
| JsonPathProperties.DescendantsAreInside | src/main/java/com/williambl/buskymore/JsonPath.java:91-100 | in a node's expansion the node comes first and every later entry lies strictly inside it |
| JsonPathProperties.SelectorsOnPrimitive | src/main/java/com/williambl/buskymore/JsonPath.java:113-191 | no selector finds anything in a primitive or null |
| JsonPathProperties.NameSelector | src/main/java/com/williambl/buskymore/JsonPath.java:113-120 | a name selector yields exactly the member stored under the name, and only from an object |
| JsonPathProperties.WildcardIsAllIndices | src/main/java/com/williambl/buskymore/JsonPath.java:121-134 | on an array (of at most IntMax elements, as any Java list) the wildcard yields the same as the index selectors 0 to n-1 in turn |
| JsonPathProperties.IndexSelector | src/main/java/com/williambl/buskymore/JsonPath.java:127-134 | an index selector yields element i when 0 <= i < size, nothing past the end or on a non-array, and an IndexOutOfBoundsException for a negative index into any array |
| JsonPathProperties.SliceSelector | src/main/java/com/williambl/buskymore/JsonPath.java:135-191 | a slice yields the array elements at the indices SliceIndices gives, in that order, unless its index wraps, when it is an IndexOutOfBoundsException |
| JsonPathProperties.NegativeStartAscendingIsEmpty | src/main/java/com/williambl/buskymore/JsonPath.java:145-147 | with the `size - i` normalisation, a negative start and a positive step select nothing, as long as `size - start` fits an `int` |
| JsonPathProperties.FarNegativeStartFromZero | src/main/java/com/williambl/buskymore/JsonPath.java:145-147 | when `size - start` passes the `int` range, the wrapped bound clamps to 0 and a positive-step slice starts at the first element |
| JsonPathProperties.MinStartSelectsAll | src/main/java/com/williambl/buskymore/JsonPath.java:145-185 | `[-2147483648::]` over three elements visits 0, 1 and 2 |
| JsonPathProperties.DescendingNeverYieldsZero | src/main/java/com/williambl/buskymore/JsonPath.java:165-181 | a negative-step slice never visits index 0, as long as `size - end` fits an `int` |
| JsonPathProperties.MinEndReachesZero | src/main/java/com/williambl/buskymore/JsonPath.java:165-185 | `[2:-2147483648:-1]` over three elements visits 2, 1 and 0, because the end wraps |
| JsonPathProperties.HugeStepWraps | src/main/java/com/williambl/buskymore/JsonPath.java:172-185 | `[1:2:2147483647]` over three elements is an IndexOutOfBoundsException: the index after 1 wraps negative |
| JsonPathProperties.DescendingStaysInRange | src/main/java/com/williambl/buskymore/JsonPath.java:177-185 | a negative-step slice visits only indices from 0 up, so its `i + step` never wraps |
| JsonPathProperties.ReverseSliceIsEmpty | src/main/java/com/williambl/buskymore/JsonPath.java:156-186 | `[::-1]` selects nothing from an array of fewer than 2^30 elements |
| JsonPathProperties.ReverseSliceOfHugeArray | src/main/java/com/williambl/buskymore/JsonPath.java:156-186 | from 2^30 elements on, `2*size+1` wraps and `[::-1]` visits the whole array backwards |
| JsonPathProperties.SliceAgreesWithRfc | src/main/java/com/williambl/buskymore/JsonPath.java:172-176 | with a positive step and no negative bound the slice visits exactly the indices section 2.3.4.2.2 of RFC 9535 gives |
| JsonPathProperties.ReverseSliceDiffersFromRfc | src/main/java/com/williambl/buskymore/JsonPath.java:145-147 | on `[::-1]` the RFC reverses the array and the implementation yields nothing |
| JsonPathExamples.AuthorsOfAllBooks | src/test/java/com/williambl/buskymore/test/JsonPathTest.java:52-56 | `$.store.book[*].author` yields the four authors in order |
| JsonPathExamples.AllAuthors | src/test/java/com/williambl/buskymore/test/JsonPathTest.java:59-63 | `$..author` yields the same four authors in document order |
| JsonPathExamples.AllThingsInStore | src/test/java/com/williambl/buskymore/test/JsonPathTest.java:66-70 | `$.store.*` yields the store's values in member order |
| JsonPathExamples.PriceOfEverythingInStore | src/test/java/com/williambl/buskymore/test/JsonPathTest.java:73-77 | `$.store..price` yields the four book prices and then the bicycle's |
| JsonPathExamples.ThirdBook | src/test/java/com/williambl/buskymore/test/JsonPathTest.java:80-84 | `$..book[2]` yields the third book |
| JsonPathExamples.FirstTwoBooksByIndex | src/test/java/com/williambl/buskymore/test/JsonPathTest.java:87-93 | `$..book[0,1]` yields the first two books |
| JsonPathExamples.FirstTwoBooksBySlice | src/test/java/com/williambl/buskymore/test/JsonPathTest.java:94-97 | `$..book[:2]` yields the first two books |
| FispSyntax.BareRun | src/main/java/com/williambl/buskymore/PostFilter.java:59-65 | an unquoted atom extends exactly to the first whitespace, parenthesis or quote |
| FispSyntax.CodePoint | src/main/java/com/williambl/buskymore/PostFilter.java:70 | appendCodePoint accepts exactly the Unicode scalar values and appends that character |
| FispSyntax.QuotedBody | src/main/java/com/williambl/buskymore/PostFilter.java:57-96 | the quoted-atom reader consumes input; an immediate closing quote gives the empty text; once escaped, it reads to the end of the input |
| FispSyntax.ParseAtom | src/main/java/com/williambl/buskymore/PostFilter.java:50-108 | an atom consumes at least one character; a quoted atom is always a Str; an unquoted one never fails and is never an Array |
| FispSyntax.Parse | src/main/java/com/williambl/buskymore/PostFilter.java:25-48 | the parse of any input is an Array, and it fails only where the element reader fails |
| FispSyntax.EscapeChar | src/main/java/com/williambl/buskymore/PostFilter.java:188-208 | a character that needs no escape, and the quote, print as themselves; every character prints as something |
| FispSyntax.CastStr | src/main/java/com/williambl/buskymore/PostFilter.java:294-295 | the Str cast gives a Str and leaves a Str unchanged |
| FispSyntax.CastArray | src/main/java/com/williambl/buskymore/PostFilter.java:296-297 | the Array cast leaves an Array unchanged and wraps anything else as the single element |
| FispSyntax.FromJson | src/main/java/com/williambl/buskymore/PostFilter.java:272-280 | an object becomes an Array of `(key value)` pairs with the value converted, an array the Array of its converted elements, a boolean a Bool, a number or string a Str of its text, and null the empty Str |
| FispJson.FromJsonOnto | src/main/java/com/williambl/buskymore/PostFilter.java:272-280 | every Fisp value is the conversion of the JSON tree it reads as |
| FispJson.FromJsonPlain | src/main/java/com/williambl/buskymore/PostFilter.java:272-280 | a JSON tree of strings, booleans and arrays comes back whole from its conversion |
| FispJson.FromJsonCollisions | src/main/java/com/williambl/buskymore/PostFilter.java:272-280 | the conversion does not tell a number from its text, null from the empty string, or an object from the array of its pairs |
| FispRoundTrip.BareAtom | src/main/java/com/williambl/buskymore/PostFilter.java:59-65 | an unquoted run followed by a delimiter reads back as itself, as a Bool for `true` and `false` |
| FispRoundTrip.QuotedPlain | src/main/java/com/williambl/buskymore/PostFilter.java:84-95 | a quote-free, backslash-free text before a closing quote reads back unchanged |
| FispRoundTrip.QuotedKeyword | src/main/java/com/williambl/buskymore/PostFilter.java:176-187 | the Strs `true` and `false` print quoted and read back as Strs, not Bools |
| FispRoundTrip.TokenPrintsBare | src/main/java/com/williambl/buskymore/PostFilter.java:210-212 | a Str needing no escape and not a keyword prints as its own text |
| FispRoundTrip.ParsePrinted | src/main/java/com/williambl/buskymore/PostFilter.java:120-171 | a printed value followed by a space parses back as that value ahead of the rest |
| FispRoundTrip.ParseBody | src/main/java/com/williambl/buskymore/PostFilter.java:141-160 | the printed elements of an Array parse back as those elements up to the closing parenthesis |
| FispRoundTrip.RoundTrip | src/main/java/com/williambl/buskymore/PostFilter.java:110-118 | parse inverts print on every Array with no nested one-element Array and only token or keyword Strs |
| FispRoundTrip.CastStrParses | src/main/java/com/williambl/buskymore/PostFilter.java:294-295 | the Str cast of such an Array parses back as the Array |
| FispRoundTrip.ParseNoBackslash | src/main/java/com/williambl/buskymore/PostFilter.java:25-108 | parsing cannot fail on input without a backslash; every parse error comes from a `\u` escape |
| FispRoundTrip.Keywords | src/main/java/com/williambl/buskymore/PostFilter.java:99-107 | unquoted `true` is a Bool and quoted `false` a Str |
| FispRoundTrip.Unbalanced | src/main/java/com/williambl/buskymore/PostFilter.java:32-47 | a stray `)` ends the input, and the end of the input closes an open `(` or quote |
| FispRoundTrip.SingleRootGainsALevel | src/main/java/com/williambl/buskymore/PostFilter.java:130-138 | a one-element root prints in parentheses, which parse as one Array more |
| FispRoundTrip.NestedSingleLosesItsLevel | src/main/java/com/williambl/buskymore/PostFilter.java:130-138 | a nested one-element Array prints as its element and comes back without its Array |
| FispRoundTrip.QuoteIsNotEscaped | src/main/java/com/williambl/buskymore/PostFilter.java:189-190 | a Str holding a quote prints it unescaped, so it parses back as two Strs |
| FispRoundTrip.EscapedRest | src/main/java/com/williambl/buskymore/PostFilter.java:67-94 | in escape mode the rest of the input is the atom's text, each character unescaped |
| FispRoundTrip.EscapeModeNeverEnds | src/main/java/com/williambl/buskymore/PostFilter.java:84-92 | after a backslash the closing quote is read as text, with the backslash kept |
| FispRoundTrip.UnicodeEscapeRereadsLastDigit | src/main/java/com/williambl/buskymore/PostFilter.java:68-72 | after `\u` and four hex digits the last digit is read once more |
| FispEval.Args | src/main/java/com/williambl/buskymore/PostFilter.java:239-242 | the arguments are the elements after the head |
| FispEval.Argument | src/main/java/com/williambl/buskymore/PostFilter.java:231-233 | the argument is the second element, or the empty Array when there is none |
| FispEval.Eval | src/main/java/com/williambl/buskymore/PostFilter.java:381-390 | a Bool evaluates to itself and the empty Array fails |
| FispEval.Call | src/main/java/com/williambl/buskymore/PostFilter.java:368-375 | an unregistered name is NoSuchElementException with the source's message |
| FispEval.EvalToString | src/main/java/com/williambl/buskymore/PostFilter.java:392-403 | a Str is its own text and the empty Array fails |
| FispEval.EvalToBool | src/main/java/com/williambl/buskymore/PostFilter.java:405-416 | a Str is true when not blank, a Bool is its value, and the empty Array fails |
| FispEval.Build | src/main/java/com/williambl/buskymore/PostFilter.java:418-424 | the filter has a verdict exactly when the expression evaluates |
| FispEval.AllTrue | src/main/java/com/williambl/buskymore/PostFilter.java:428-430 | with no arguments all_of is true |
| FispEval.AnyTrue | src/main/java/com/williambl/buskymore/PostFilter.java:431-433 | with no arguments any_of is false |
| FispEval.ExtractPath | src/main/java/com/williambl/buskymore/PostFilter.java:437-456 | the arguments extend the segments already read, adding child segments only |
| FispEval.SelectorsOfStr | src/main/java/com/williambl/buskymore/PostFilter.java:495-507 | a string argument is exactly one selector, and `*` is the wildcard |
| FispEval.SlicePart | src/main/java/com/williambl/buskymore/PostFilter.java:502-504 | a slice group that took no part in the match is a NullPointerException; otherwise it is Integer.parseInt of the group, failure included |
| FispEval.SelectorsOf | src/main/java/com/williambl/buskymore/PostFilter.java:492-511 | a Str argument stands for the selectors of its text |
| FispEvalProperties.RegisterAllBinds | src/main/java/com/williambl/buskymore/PostFilter.java:361-366 | registering binds the name and every alias to the handler and leaves every other binding alone |
| FispEvalProperties.BootstrapBindings | src/main/java/com/williambl/buskymore/PostFilter.java:427-482 | bootstrap registers the seventeen names with their handlers |
| FispEvalProperties.UnregisteredName | src/main/java/com/williambl/buskymore/PostFilter.java:381-416 | an unregistered name cannot be evaluated, yet as a string it is itself and as a boolean true unless blank |
| FispEvalProperties.ValueHeadedArray | src/main/java/com/williambl/buskymore/PostFilter.java:384-424 | an Array headed by a non-Str is its own value, which build reads as false, while evalToBool reads its head |
| FispEvalProperties.ParenthesisedFilterIsFalse | src/main/java/com/williambl/buskymore/PostFilter.java:418-424 | `has_embed` is the post's embed flag; `(has_embed)` is false whatever the post |
| FispEvalProperties.AllTrueMeans | src/main/java/com/williambl/buskymore/PostFilter.java:428-430 | allMatch is true exactly when every argument is true, and false exactly when some argument is false after only true ones |
| FispEvalProperties.AnyTrueMeans | src/main/java/com/williambl/buskymore/PostFilter.java:431-433 | anyMatch is false exactly when every argument is false, and true exactly when some argument is true after only false ones |
| FispEvalProperties.AllOfMeans | src/main/java/com/williambl/buskymore/PostFilter.java:428-430 | the filter `all_of` (and `all`, `and`) passes exactly when every argument does |
| FispEvalProperties.AnyOfMeans | src/main/java/com/williambl/buskymore/PostFilter.java:431-433 | the filter `any_of` (and `any`, `or`, `either`) rejects exactly when every argument is false |
| FispEvalProperties.NotMeans | src/main/java/com/williambl/buskymore/PostFilter.java:434-436 | `not` negates its first argument and ignores the rest; without one it fails |
| FispEvalProperties.NotOfName | src/main/java/com/williambl/buskymore/PostFilter.java:434-436 | the argument of `not` is read as a boolean, so a bare name stands for its own non-blankness |
| FispEvalProperties.AnyEqualsMeans | src/main/java/com/williambl/buskymore/PostFilter.java:462-464 | the search succeeds with whether some argument's string is the target |
| FispEvalProperties.AnyLabelMeans | src/main/java/com/williambl/buskymore/PostFilter.java:478-482 | with literal arguments, some label is one of them |
| FispEvalProperties.ReasonIsMeans | src/main/java/com/williambl/buskymore/PostFilter.java:460-465 | `reason_is` holds exactly when the post has a reason that is one of the arguments |
| FispEvalProperties.AuthorIsMeans | src/main/java/com/williambl/buskymore/PostFilter.java:468-473 | `author_is` holds exactly when the author's DID is one of the arguments |
| FispEvalProperties.LabelsContainsMeans | src/main/java/com/williambl/buskymore/PostFilter.java:478-482 | `labels_contains` holds exactly when one of the post's labels is one of the arguments |
| FispEvalProperties.IsRetweetMeans | src/main/java/com/williambl/buskymore/PostFilter.java:466-467 | `is_retweet` holds exactly when the reason is the repost reason |
| FispEvalProperties.IsAuthoredBySelfMeans | src/main/java/com/williambl/buskymore/PostFilter.java:474-475 | `is_authored_by_self` holds exactly when the author is the context's user, or has the empty DID when there is none |
| FispEvalProperties.SelfRetweetIsAuthoredBySelf | src/main/java/com/williambl/buskymore/PostFilter.java:476-477 | `is_self_retweet` always agrees with `is_authored_by_self` |
| FispEvalProperties.ParseSelfRetweetSource | src/main/java/com/williambl/buskymore/PostFilter.java:477 | the text registered for `is_self_retweet` parses into the expression the model uses |
| ExtractProperties.SliceText | src/main/java/com/williambl/buskymore/PostFilter.java:497-505 | a slice written `a:b:c` matches the slice pattern and reads back as that slice |
| ExtractProperties.SelectorArgReads | src/main/java/com/williambl/buskymore/PostFilter.java:492-511 | every selector that has a spelling reads back from it |
| ExtractProperties.SelectorsArgReads | src/main/java/com/williambl/buskymore/PostFilter.java:509 | the Array spelling of a selector list reads back as the list |
| ExtractProperties.ExtractSpellsPath | src/main/java/com/williambl/buskymore/PostFilter.java:437-456 | `extract $ . s1 . s2 …` queries exactly the path it spells, with or without the leading `$` |
| ExtractProperties.ExtractQueries | src/main/java/com/williambl/buskymore/PostFilter.java:437-458 | the whole call yields the selected nodes of the post's JSON, each converted to Fisp |
| ExtractProperties.DoubleDotIsChild | src/main/java/com/williambl/buskymore/PostFilter.java:448-451 | `..` produces a child segment, exactly as `.` does |
| ExtractProperties.TrailingDotFails | src/main/java/com/williambl/buskymore/PostFilter.java:444-445 | a `.` with nothing after it is an error |
| ExtractProperties.EmptySelectorFails | src/main/java/com/williambl/buskymore/PostFilter.java:496 | the empty text passes the digit test and fails to parse |
| ExtractProperties.NegativeIndexIsName | src/main/java/com/williambl/buskymore/PostFilter.java:496-507 | a negative number is not an index but a name |
| ExtractProperties.IndexOverflowFails | src/main/java/com/williambl/buskymore/PostFilter.java:496 | an index beyond the `int` range fails |
| ExtractProperties.OmittedSlicePartFails | src/main/java/com/williambl/buskymore/PostFilter.java:501-505 | a slice with an omitted middle part matches the pattern but fails: with the start's NumberFormatException when the start does not fit an `int`, and with a NullPointerException otherwise |
| ExtractProperties.SelectorsOfAllAppend | src/main/java/com/williambl/buskymore/PostFilter.java:509 | the selectors of an Array's parts are concatenated in order |
| FeedGetter.Collect | src/main/java/com/williambl/buskymore/BskyPostGetter.java:71-81 | reading keeps the entries read so far, holds every entry line's key, and adds no key without an entry |
| FeedGetter.ReadState | src/main/java/com/williambl/buskymore/BskyPostGetter.java:66-69 | a missing file reads as no checkpoints |
| FeedGetter.HasEmbeds | src/main/java/com/williambl/buskymore/BskyPostGetter.java:217 | a record without an embed has none |
| FeedGetter.EntryResult | src/main/java/com/williambl/buskymore/BskyPostGetter.java:200-222 | an element that is not an object holding a post object is skipped, and a post read has a valid URI |
| FeedGetter.SelectPosts | src/main/java/com/williambl/buskymore/BskyPostGetter.java:200-225 | the reader returns at most one post per element, each kept by the predicate and with a valid URI |
| FeedGetter.ParseFeed | src/main/java/com/williambl/buskymore/BskyPostGetter.java:190-198 | no response, or one without `feed`, gives no posts, and every post returned passes the predicate |
| FeedGetter.LatestFrom | src/main/java/com/williambl/buskymore/BskyPostGetter.java:111-117 | the newest time is no earlier than the start and every post, and is the start or some post's time |
| FeedGetter.Advance | src/main/java/com/williambl/buskymore/BskyPostGetter.java:119 | Map.compute adds the key and leaves every other key alone |
| FeedGetter.Insert | src/main/java/com/williambl/buskymore/BskyPostGetter.java:121 | insertion adds exactly the new post |
| FeedGetter.SortByTime | src/main/java/com/williambl/buskymore/BskyPostGetter.java:121 | the sort is a permutation of its input |
| FeedGetterProperties.UniqueKeyIdentifies | src/main/java/com/williambl/buskymore/BskyPostGetter.java:33-44 | with DIDs free of `/`, two sources share a key exactly when they are the same user or the same feed |
| FeedGetterProperties.WrittenLines | src/main/java/com/williambl/buskymore/BskyPostGetter.java:84-93 | splitting the written file at newlines gives back the lines written |
| FeedGetterProperties.ReadWriteState | src/main/java/com/williambl/buskymore/BskyPostGetter.java:66-93 | readState inverts writeState, in any write order, for keys without tab or newline and instants whose text parses back |
| FeedGetterProperties.DuplicateKeyFails | src/main/java/com/williambl/buskymore/BskyPostGetter.java:81 | two entries for one key make readState fail |
| FeedGetterProperties.KeepsMonotone | src/main/java/com/williambl/buskymore/BskyPostGetter.java:137 | a later cutoff keeps fewer posts |
| FeedGetterProperties.UserFilters | src/main/java/com/williambl/buskymore/BskyPostGetter.java:150-152 | a user source with both flags filters like a feed; without them it drops reposts and posts with no embed |
| FeedGetterProperties.MergeKeys | src/main/java/com/williambl/buskymore/BskyPostGetter.java:106-120 | the merge adds the sources' keys and no others |
| FeedGetterProperties.MergeNeverBack | src/main/java/com/williambl/buskymore/BskyPostGetter.java:119 | no checkpoint moves back |
| FeedGetterProperties.MergeCarriesOver | src/main/java/com/williambl/buskymore/BskyPostGetter.java:106 | a key no source uses keeps its checkpoint |
| FeedGetterProperties.MergeCovers | src/main/java/com/williambl/buskymore/BskyPostGetter.java:108-120 | each source's checkpoint ends at or after the newest post of its batch |
| FeedGetterProperties.MergeAttained | src/main/java/com/williambl/buskymore/BskyPostGetter.java:108-120 | each checkpoint is the old one or the newest post time of a batch with that key |
| FeedGetterProperties.EmptyFirstRoundIsMin | src/main/java/com/williambl/buskymore/BskyPostGetter.java:111-119 | a new source with no posts is recorded at Instant.MIN |
| FeedGetterProperties.NoRedelivery | src/main/java/com/williambl/buskymore/BskyPostGetter.java:100-152 | no post of a round passes its source's filter in a later round |
| FeedGetterProperties.SortByTimeStable | src/main/java/com/williambl/buskymore/BskyPostGetter.java:121 | the sort orders by time and keeps the order of posts of one time |
| FeedGetterProperties.RoundPosts | src/main/java/com/williambl/buskymore/BskyPostGetter.java:106-122 | a round outputs every post of every batch once, by time, with posts of one time in source and batch order |
| FeedGetterProperties.EntryOfPost | src/main/java/com/williambl/buskymore/BskyPostGetter.java:203-217 | the entry written for a post reads back as that post |
| FeedGetterProperties.ParseEncodedFeed | src/main/java/com/williambl/buskymore/BskyPostGetter.java:190-226 | a response built from posts reads back as the posts the predicate keeps, in order |
| FeedGetterProperties.SkippedEntries | src/main/java/com/williambl/buskymore/BskyPostGetter.java:201-223 | an entry without a post object, with a non-post record or with an invalid URI is skipped |
| FeedGetterProperties.EmbedTypes | src/main/java/com/williambl/buskymore/BskyPostGetter.java:28 | a link card or a quoted record does not count as an embed; any other type does |
| FeedGetterProperties.MalformedResponse | src/main/java/com/williambl/buskymore/BskyPostGetter.java:191-198 | a response that is not an object with a `feed` array gives no posts |
| RateLimiter.Quot | src/main/java/com/williambl/buskymore/RateLimitedExecutor.java:44 | Java division: the magnitude of the quotient is the magnitudes' quotient rounded down, and its sign is the product of the operands' signs |
| RateLimiter.QuotPos | src/main/java/com/williambl/buskymore/RateLimitedExecutor.java:22 | for a positive divisor the quotient times the divisor lies within one divisor of the dividend, on the side of zero |
| RateLimiter.DividedBy | src/main/java/com/williambl/buskymore/RateLimitedExecutor.java:22 | dividedBy fails exactly on a zero divisor; for positive operands the quotient is the whole number of divisors in the duration |
| RateLimiter.GetSeconds | src/main/java/com/williambl/buskymore/RateLimitedExecutor.java:33 | getSeconds rounds down to whole seconds |
| RateLimiter.ToMillis | src/main/java/com/williambl/buskymore/RateLimitedExecutor.java:35 | toMillis rounds toward zero to whole milliseconds |
| RateLimiter.GetDelay | src/main/java/com/williambl/buskymore/RateLimitedExecutor.java:30-41 | the delay is in milliseconds exactly below 1000 s; it never exceeds a non-negative duration and falls short by less than one unit |
| RateLimiter.Create | src/main/java/com/williambl/buskymore/RateLimitedExecutor.java:20-26 | a zero budget fails the division; otherwise creation succeeds exactly when the cadence is positive, with an empty idle executor |
| RateLimiter.Execute | src/main/java/com/williambl/buskymore/RateLimitedExecutor.java:81-84 | the task joins the tail and nothing else changes |
| RateLimiter.Retry | src/main/java/com/williambl/buskymore/RateLimitedExecutor.java:77-79 | the task goes to the head and nothing else changes |
| RateLimiter.MarkRateLimited | src/main/java/com/williambl/buskymore/RateLimitedExecutor.java:47-49 | the pause becomes the given instant, replacing any earlier one, and nothing else changes |
| RateLimiter.UpdateLimits | src/main/java/com/williambl/buskymore/RateLimitedExecutor.java:43-45 | fails exactly when nothing remains; otherwise only the extra delay changes, to the converted share of the time until reset |
| RateLimiter.TaskFinished | src/main/java/com/williambl/buskymore/RateLimitedExecutor.java:52 | the last task is done and nothing else changes |
| RateLimiter.Tick | src/main/java/com/williambl/buskymore/RateLimitedExecutor.java:51-75 | a tick starts a task exactly when the last one is done, the pause is over and the deque is non-empty; the task is the head and comes off the deque; a start arms the pause for the extra delay; otherwise nothing changes but the lapsed pause is cleared |
| RateLimiterProperties.RunConserves | src/main/java/com/williambl/buskymore/RateLimitedExecutor.java:51-84 | over any run, the started tasks and the deque together are the initial deque plus every added task: none is lost or duplicated |
| RateLimiterProperties.RunInOrder | src/main/java/com/williambl/buskymore/RateLimitedExecutor.java:63-84 | without retries tasks start in the order they were queued |
| RateLimiterProperties.OneAtATime | src/main/java/com/williambl/buskymore/RateLimitedExecutor.java:52-54 | the starts never outnumber the completions by more than one: tasks run one at a time |
| RateLimiterProperties.PausedHeadWaits | src/main/java/com/williambl/buskymore/RateLimitedExecutor.java:56-61 | the head of a paused deque is the next task started, and not before the pause ends |
| RateLimiterProperties.RetriedTaskFirst | src/main/java/com/williambl/buskymore/RateLimitedExecutor.java:47-79 | a task retried with a pause starts first, not before the pause, and the others follow in queue order |
| RateLimiterProperties.StartsSpaced | src/main/java/com/williambl/buskymore/RateLimitedExecutor.java:71-74 | with an extra delay, consecutive starts are at least that delay apart |
| RateLimiterProperties.SpreadFits | src/main/java/com/williambl/buskymore/RateLimitedExecutor.java:30-44 | a share of a total, truncated to its unit, times the number of parts does not exceed the total and falls short by less than a unit per part |
| RateLimiterProperties.QuotaSpread | src/main/java/com/williambl/buskymore/RateLimitedExecutor.java:43-45 | after updateLimits the remaining requests spaced by the extra delay fit before the reset |
| RateLimiterProperties.CadenceFits | src/main/java/com/williambl/buskymore/RateLimitedExecutor.java:20-26 | the budget's tasks at the cadence fit in the window, with less than one unit of slack per task |
| RateLimiterProperties.TooFastRefused | src/main/java/com/williambl/buskymore/RateLimitedExecutor.java:22-24 | a window shorter than a millisecond per task gives a zero cadence, which the scheduler refuses |
| RateLimiterProperties.DelayUnitBoundary | src/main/java/com/williambl/buskymore/RateLimitedExecutor.java:33-39 | the unit changes from milliseconds to seconds at exactly 1000 s |

## Left out

- `contains_regex` is not modelled: it needs `java.util.regex`. It is absent from the registry, so a filter naming it is an unregistered name.
- The printer's newline layout (`PostFilter.java:141-170`) is not modelled: the source switches it off unconditionally, so it has no effect.
- `Fisp.toString`, `arguments(Class)` and `argStream(Class)`, `maybeGet`, and the `FispFunc` adapters are not modelled separately: each is folded into the built-in that uses it.
- The filter selector is not modelled: it only throws UnsupportedOperationException, and nothing constructs it.
- `getDescendents` is not modelled: nothing calls it.
- FispEval.Eval: evaluation carries a `fuel` bound, and running out is an `OutOfFuel` error the source does not have. The lemmas state how much fuel they need.
- FispSyntax.CodePoint: a Java `char` is a UTF-16 unit and a Dafny `char` a Unicode scalar value. A `\u` escape naming a surrogate therefore fails in the model, and `codePoints()` sees no surrogate pairs.
- JavaChars.ParseInt: accepts ASCII digits only; `Character.digit` also accepts other Unicode digits.
- JsonPath.SliceIndices: the `int` arithmetic is exact only for arrays of at most IntMax elements. A Java list cannot hold more, and for larger sizes the model's defaults `size - 1` and `-size - 1` are not wrapped.
- `Character.isDefined` is a parameter: it depends on the runtime's Unicode tables.
- FeedGetter.Collect: a duplicate key gives one `IllegalState` error without Collectors.toMap's exact message text.
- Json.Lookup: an object with duplicate keys is not modelled faithfully. The model's objects are member lists, and a lookup finds the first member with the key.
- `Instant.parse`, `Instant.toString`, the URI syntax check and `Instant.now()` are parameters.
- The 64-bit range of `Instant` and `Duration` and overflow in `Instant.plus` are not modelled. Times are unbounded integers.
- The `Post` record has eight fields, but `parseFeed` calls a four-field constructor. The feed getter uses its own four-field `FeedPost`, and the filter context uses an eight-field `Post`.
- The HTTP client, the request headers, the body handler and its logging, file I/O, and the futures of `run` are not modelled. Responses, file contents and batches are parameters.
- The iteration order of a `HashMap` is a parameter. The order in which `writeState` writes the entries is an argument `order`, and every lemma holds for any order.
- RateLimiter.Tick: time is whole milliseconds. A pause set by `markRateLimited` with a sub-millisecond part is rounded by the caller.
- The executor's threads, the scheduler's timing and the completion of the running task are steps of a run (`Ticked(now)` and `Finished`), not real time. The `taskExecutor` that runs a task is not modelled.
- `close()` is not modelled: it only shuts the scheduler down.
- DiscordPostSender, Bini and Main are not part of this model. They send, encode and wire up; they are not part of the core.
