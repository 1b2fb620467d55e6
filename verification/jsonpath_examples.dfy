/** The bookstore document of the JSONPath article the repository's tests
    use, and what the tested paths select from it. Prices are kept as their
    number text. */
module JsonPathExamples {
  import opened Results
  import opened Json
  import opened JsonPath
  import opened Seqs
  import opened JsonPathProperties

  const Book0: Json := JObject([Member("category", JString("reference")), Member("author", JString("Nigel Rees")),
    Member("title", JString("Sayings of the Century")), Member("price", JNumber("8.95"))])
  const Book1: Json := JObject([Member("category", JString("fiction")), Member("author", JString("Evelyn Waugh")),
    Member("title", JString("Sword of Honour")), Member("price", JNumber("12.99"))])
  const Book2: Json := JObject([Member("category", JString("fiction")), Member("author", JString("Herman Melville")),
    Member("title", JString("Moby Dick")), Member("isbn", JString("0-553-21311-3")), Member("price", JNumber("8.99"))])
  const Book3: Json := JObject([Member("category", JString("fiction")), Member("author", JString("J. R. R. Tolkien")),
    Member("title", JString("The Lord of the Rings")), Member("isbn", JString("0-395-19395-8")),
    Member("price", JNumber("22.99"))])
  const BookList: seq<Json> := [Book0, Book1, Book2, Book3]
  const Books: Json := JArray(BookList)
  const Bicycle: Json := JObject([Member("color", JString("red")), Member("price", JNumber("19.95"))])
  const StoreBody: Json := JObject([Member("book", Books), Member("bicycle", Bicycle)])
  const Store: Json := JObject([Member("store", StoreBody)])

  const Authors: seq<Json> :=
    [JString("Nigel Rees"), JString("Evelyn Waugh"), JString("Herman Melville"), JString("J. R. R. Tolkien")]

  /** A child segment with one selector over one node. */
  lemma ChildOne(sel: Selector, j: Json)
    ensures SegmentSelect(Child([sel]), [j]) == SelectorSelect(sel, j)
  {
    SelectEachSingle([sel], j);
    SelectorsSingle(sel, j);
  }

  /** Each book's second member is its author. */
  lemma AuthorOf(b: Json, k: nat)
    requires k < 4 && b == BookList[k]
    ensures SelectorsSelect([Name("author")], b) == Success([Authors[k]])
  {
    SelectorsSingle(Name("author"), b);
    assert b.members[0].key == "category" != "author";
    assert b.members[1] == Member("author", Authors[k]);
    assert Lookup(b.members[1..], "author") == Some(Authors[k]);
  }

  lemma AuthorsOfBooks()
    ensures SegmentSelect(Child([Name("author")]), BookList) == Success(Authors)
  {
    forall k | 0 <= k < 4
      ensures SelectorsSelect([Name("author")], BookList[k]) == Success([Authors[k]])
    {
      AuthorOf(BookList[k], k);
    }
    SelectEachOnePerNode([Name("author")], BookList, Authors);
  }

  /** `$.store.book[*].author` yields the four authors in order. */
  lemma AuthorsOfAllBooks()
    ensures Select([Child([Name("store")]), Child([Name("book")]), Child([Wildcard]), Child([Name("author")])], Store)
         == Success(Authors)
  {
    var s0, s1, s2, s3 := Child([Name("store")]), Child([Name("book")]), Child([Wildcard]), Child([Name("author")]);
    ChildOne(Name("store"), Store);
    ChildOne(Name("book"), StoreBody);
    ChildOne(Wildcard, Books);
    AuthorsOfBooks();
    SelectFromCons(s3, [], BookList);
    SelectFromCons(s2, [s3], [Books]);
    SelectFromCons(s1, [s2, s3], [StoreBody]);
    SelectFromCons(s0, [s1, s2, s3], [Store]);
    assert [s0] + [s1, s2, s3] == [s0, s1, s2, s3];
    assert [s1] + [s2, s3] == [s1, s2, s3];
    assert [s2] + [s3] == [s2, s3];
    assert [s3] + [] == [s3];
  }

  // ---------------------------------------------------------------------
  // Descendant segments over the store

  /** An object whose member values are all primitives: the descendant
      segment finds only what the selectors find on the object itself. */
  lemma FlatObject(sels: seq<Selector>, j: Json)
    requires j.JObject? && forall m :: m in j.members ==> !m.value.JArray? && !m.value.JObject?
    ensures DescendantSelect(sels, j) == SelectorsSelect(sels, j)
  {
    var cs := Children(j);
    var rs := seq(|cs|, i => []);
    forall i | 0 <= i < |cs|
      ensures DescendantSelect(sels, cs[i]) == Success(rs[i])
    {
      assert cs[i] == j.members[i].value && j.members[i] in j.members;
      SelectorsOnPrimitive(sels, cs[i]);
      assert Children(cs[i]) == [];
      assert DescendantSelectAll(sels, [], cs[i]) == Success([]);
      var none: seq<Json> := [];
      assert none + none == none;
    }
    DescendantSelectAllPointwise(sels, cs, j, rs);
    EmptyFlatten(rs);
    var r := SelectorsSelect(sels, j);
    if r.Success? {
      assert r.value + [] == r.value;
    }
  }

  lemma {:induction false} EmptyFlatten(rs: seq<seq<Json>>)
    requires forall i :: 0 <= i < |rs| ==> rs[i] == []
    ensures Flatten(rs) == []
  {
    if |rs| > 0 {
      EmptyFlatten(rs[1..]);
    }
  }

  /** The first member of an object answers a name selector for its key. */
  lemma NameAt(j: Json, k: nat, name: string)
    requires j.JObject? && k < |j.members| && j.members[k].key == name
    requires forall i :: 0 <= i < k ==> j.members[i].key != name
    ensures SelectorsSelect([Name(name)], j) == Success([j.members[k].value])
  {
    SelectorsSingle(Name(name), j);
    LookupAt(j.members, k, name);
  }

  lemma {:induction false} LookupAt(ms: seq<Member>, k: nat, name: string)
    requires k < |ms| && ms[k].key == name
    requires forall i :: 0 <= i < k ==> ms[i].key != name
    ensures Lookup(ms, name) == Some(ms[k].value)
  {
    if k > 0 {
      LookupAt(ms[1..], k - 1, name);
    }
  }

  lemma NameAbsent(j: Json, name: string)
    requires j.JObject? && forall i :: 0 <= i < |j.members| ==> j.members[i].key != name
    ensures SelectorsSelect([Name(name)], j) == Success([])
  {
    SelectorsSingle(Name(name), j);
  }

  function Singletons(xs: seq<Json>): (r: seq<seq<Json>>)
    ensures |r| == |xs| && forall i :: 0 <= i < |xs| ==> r[i] == [xs[i]]
  {
    seq(|xs|, i requires 0 <= i < |xs| => [xs[i]])
  }

  lemma {:induction false} FlattenSingletons(xs: seq<Json>)
    ensures Flatten(Singletons(xs)) == xs
  {
    if |xs| > 0 {
      assert Singletons(xs)[1..] == Singletons(xs[1..]);
      FlattenSingletons(xs[1..]);
    }
  }

  lemma FlattenOne(a: seq<Json>)
    ensures Flatten([a]) == a
  {
    assert [a][1..] == [];
  }

  lemma FlattenPair(a: seq<Json>, b: seq<Json>)
    ensures Flatten([a, b]) == a + b
  {
    assert [a, b][1..] == [b];
    FlattenOne(b);
  }

  /** An array whose elements each contribute one node, and which itself
      matches nothing. */
  lemma ArrayOfSingles(sels: seq<Selector>, a: Json, xs: seq<Json>)
    requires a.JArray? && |a.elems| == |xs|
    requires SelectorsSelect(sels, a) == Success([])
    requires forall k :: 0 <= k < |xs| ==> DescendantSelect(sels, a.elems[k]) == Success([xs[k]])
    ensures DescendantSelect(sels, a) == Success(xs)
  {
    assert Children(a) == a.elems;
    DescendantSelectNode(sels, a, Singletons(xs));
    FlattenSingletons(xs);
    assert [] + xs == xs;
  }

  lemma BookAuthor(k: nat)
    requires k < 4
    ensures DescendantSelect([Name("author")], BookList[k]) == Success([Authors[k]])
  {
    if k == 0 {
      AuthorOfFlat(Book0);
    } else if k == 1 {
      AuthorOfFlat(Book1);
    } else if k == 2 {
      AuthorOfFlat(Book2);
    } else {
      AuthorOfFlat(Book3);
    }
  }

  /** A flat book whose second member is its author. */
  lemma AuthorOfFlat(b: Json)
    requires b.JObject? && |b.members| > 1 && forall m :: m in b.members ==> !m.value.JArray? && !m.value.JObject?
    requires b.members[0].key != "author" && b.members[1].key == "author"
    ensures DescendantSelect([Name("author")], b) == Success([b.members[1].value])
  {
    FlatObject([Name("author")], b);
    NameAt(b, 1, "author");
  }

  lemma BooksAuthors()
    ensures DescendantSelect([Name("author")], Books) == Success(Authors)
  {
    forall k | 0 <= k < 4
      ensures DescendantSelect([Name("author")], BookList[k]) == Success([Authors[k]])
    {
      BookAuthor(k);
    }
    SelectorsSingle(Name("author"), Books);
    ArrayOfSingles([Name("author")], Books, Authors);
  }

  lemma BicycleAuthor()
    ensures DescendantSelect([Name("author")], Bicycle) == Success([])
  {
    FlatObject([Name("author")], Bicycle);
    NameAbsent(Bicycle, "author");
  }

  lemma StoreBodyAuthors()
    ensures DescendantSelect([Name("author")], StoreBody) == Success(Authors)
  {
    BooksAuthors();
    BicycleAuthor();
    NameAbsent(StoreBody, "author");
    PairNode([Name("author")], StoreBody, [], Authors, []);
    assert [] + (Authors + []) == Authors;
  }

  /** `$..author` yields the same four authors, in document order. */
  lemma AllAuthors()
    ensures Select([Descendant([Name("author")])], Store) == Success(Authors)
  {
    var sels := [Name("author")];
    StoreBodyAuthors();
    assert Children(Store) == [StoreBody];
    NameAbsent(Store, "author");
    DescendantSelectNode(sels, Store, [Authors]);
    FlattenOne(Authors);
    assert [] + Authors == Authors;
    DescendantSegmentMatchesRfc(sels, Store);
    SelectSingleSegment(Descendant(sels), Store);
  }

  const BookPrices: seq<Json> := [JNumber("8.95"), JNumber("12.99"), JNumber("8.99"), JNumber("22.99")]
  const Prices: seq<Json> := BookPrices + [JNumber("19.95")]

  /** A flat book's price, found by its position among the book's members. */
  lemma PriceAt(b: Json, at: nat, price: Json)
    requires b.JObject? && at < |b.members| && b.members[at] == Member("price", price)
    requires forall i :: 0 <= i < at ==> b.members[i].key in {"category", "author", "title", "isbn"}
    requires forall m :: m in b.members ==> !m.value.JArray? && !m.value.JObject?
    ensures DescendantSelect([Name("price")], b) == Success([price])
  {
    FlatObject([Name("price")], b);
    NameAt(b, at, "price");
  }

  lemma Price0()
    ensures DescendantSelect([Name("price")], Book0) == Success([BookPrices[0]])
  {
    assert Book0.members[3] == Member("price", BookPrices[0]);
    PriceAt(Book0, 3, BookPrices[0]);
  }

  lemma Price1()
    ensures DescendantSelect([Name("price")], Book1) == Success([BookPrices[1]])
  {
    assert Book1.members[3] == Member("price", BookPrices[1]);
    PriceAt(Book1, 3, BookPrices[1]);
  }

  lemma Price2()
    ensures DescendantSelect([Name("price")], Book2) == Success([BookPrices[2]])
  {
    assert Book2.members[4] == Member("price", BookPrices[2]);
    PriceAt(Book2, 4, BookPrices[2]);
  }

  lemma Price3()
    ensures DescendantSelect([Name("price")], Book3) == Success([BookPrices[3]])
  {
    assert Book3.members[4] == Member("price", BookPrices[3]);
    PriceAt(Book3, 4, BookPrices[3]);
  }

  lemma BookPrice(k: nat)
    requires k < 4
    ensures DescendantSelect([Name("price")], BookList[k]) == Success([BookPrices[k]])
  {
    if k == 0 {
      Price0();
    } else if k == 1 {
      Price1();
    } else if k == 2 {
      Price2();
    } else {
      Price3();
    }
  }

  /** `..price` below the book array: the four book prices. */
  lemma PricesOfBooks()
    ensures DescendantSelect([Name("price")], Books) == Success(BookPrices)
  {
    forall k | 0 <= k < 4
      ensures DescendantSelect([Name("price")], BookList[k]) == Success([BookPrices[k]])
    {
      BookPrice(k);
    }
    SelectorsSingle(Name("price"), Books);
    ArrayOfSingles([Name("price")], Books, BookPrices);
  }

  /** `..price` below the bicycle: its own price. */
  lemma BicyclePrice()
    ensures DescendantSelect([Name("price")], Bicycle) == Success([Prices[4]])
  {
    assert Bicycle.members[1] == Member("price", Prices[4]);
    assert Bicycle.members[0].key == "color";
    FlatObject([Name("price")], Bicycle);
    NameAt(Bicycle, 1, "price");
  }

  lemma StoreBodyPrices()
    ensures DescendantSelect([Name("price")], StoreBody) == Success(Prices)
  {
    PricesOfBooks();
    BicyclePrice();
    NameAbsent(StoreBody, "price");
    PairNode([Name("price")], StoreBody, [], BookPrices, [Prices[4]]);
    assert [] + (BookPrices + [Prices[4]]) == Prices;
  }

  /** A two-segment path: the second segment applied to the first's result. */
  lemma TwoSegments(s1: Segment, s2: Segment, root: Json, mid: seq<Json>)
    requires SegmentSelect(s1, [root]) == Success(mid)
    ensures Select([s1, s2], root) == SegmentSelect(s2, mid)
  {
    SelectFromCons(s1, [s2], [root]);
    SelectFromCons(s2, [], mid);
    assert [s1] + [s2] == [s1, s2];
    assert [s2] + [] == [s2];
  }

  /** `$.store..price` yields the four book prices, then the bicycle's. */
  lemma PriceOfEverythingInStore()
    ensures Select([Child([Name("store")]), Descendant([Name("price")])], Store) == Success(Prices)
  {
    var sels := [Name("price")];
    StoreBodyPrices();
    DescendantSegmentMatchesRfc(sels, StoreBody);
    ChildOne(Name("store"), Store);
    TwoSegments(Child([Name("store")]), Descendant(sels), Store, [StoreBody]);
  }

  /** An array none of whose elements contributes anything, and which
      itself matches nothing. */
  lemma ArrayOfEmpties(sels: seq<Selector>, a: Json)
    requires a.JArray?
    requires SelectorsSelect(sels, a) == Success([])
    requires forall k :: 0 <= k < |a.elems| ==> DescendantSelect(sels, a.elems[k]) == Success([])
    ensures DescendantSelect(sels, a) == Success([])
  {
    assert Children(a) == a.elems;
    var rs := seq(|a.elems|, k => []);
    DescendantSelectNode(sels, a, rs);
    EmptyFlatten(rs);
    var none: seq<Json> := [];
    assert none + none == none;
  }

  /** A flat object without the key contributes nothing to a descendant
      name selection. */
  lemma FlatWithout(j: Json, name: string)
    requires j.JObject? && forall m :: m in j.members ==> !m.value.JArray? && !m.value.JObject?
    requires forall i :: 0 <= i < |j.members| ==> j.members[i].key != name
    ensures DescendantSelect([Name(name)], j) == Success([])
  {
    FlatObject([Name(name)], j);
    NameAbsent(j, name);
  }

  lemma NoBookIn(k: nat)
    requires k < 4
    ensures DescendantSelect([Name("book")], BookList[k]) == Success([])
  {
    if k == 0 {
      NoBook0();
    } else if k == 1 {
      NoBook1();
    } else if k == 2 {
      NoBook2();
    } else {
      NoBook3();
    }
  }

  lemma NoBook0()
    ensures DescendantSelect([Name("book")], Book0) == Success([])
  {
    FlatWithout(Book0, "book");
  }

  lemma NoBook1()
    ensures DescendantSelect([Name("book")], Book1) == Success([])
  {
    FlatWithout(Book1, "book");
  }

  lemma NoBook2()
    ensures DescendantSelect([Name("book")], Book2) == Success([])
  {
    FlatWithout(Book2, "book");
  }

  lemma NoBook3()
    ensures DescendantSelect([Name("book")], Book3) == Success([])
  {
    FlatWithout(Book3, "book");
  }

  lemma NoBookInBooks()
    ensures DescendantSelect([Name("book")], Books) == Success([])
  {
    forall k | 0 <= k < |Books.elems|
      ensures DescendantSelect([Name("book")], Books.elems[k]) == Success([])
    {
      NoBookIn(k);
    }
    SelectorsSingle(Name("book"), Books);
    ArrayOfEmpties([Name("book")], Books);
  }

  lemma BookInStoreBody()
    ensures DescendantSelect([Name("book")], StoreBody) == Success([Books])
  {
    NoBookInBooks();
    FlatWithout(Bicycle, "book");
    NameAt(StoreBody, 0, "book");
    PairNode([Name("book")], StoreBody, [Books], [], []);
    assert [Books] + ([] + []) == [Books];
  }

  /** An object of two members: the descendant segment finds what the
      selectors find on the object, then what it finds below each member. */
  lemma PairNode(sels: seq<Selector>, j: Json, own: seq<Json>, r0: seq<Json>, r1: seq<Json>)
    requires j.JObject? && |j.members| == 2
    requires DescendantSelect(sels, j.members[0].value) == Success(r0)
    requires DescendantSelect(sels, j.members[1].value) == Success(r1)
    requires SelectorsSelect(sels, j) == Success(own)
    ensures DescendantSelect(sels, j) == Success(own + (r0 + r1))
  {
    var rs: seq<seq<Json>> := [r0, r1];
    assert Children(j)[0] == j.members[0].value && Children(j)[1] == j.members[1].value;
    DescendantSelectNode(sels, j, rs);
    FlattenPair(r0, r1);
  }

  /** `$..book` yields the book array alone. */
  lemma AllBookArrays()
    ensures SegmentSelect(Descendant([Name("book")]), [Store]) == Success([Books])
  {
    var sels := [Name("book")];
    BookInStoreBody();
    assert Children(Store) == [StoreBody];
    NameAbsent(Store, "book");
    DescendantSelectNode(sels, Store, [[Books]]);
    FlattenOne([Books]);
    assert [] + [Books] == [Books];
    DescendantSegmentMatchesRfc(sels, Store);
  }

  /** The books selected by `sel` after `$..book`. */
  lemma AfterBookArrays(sels: seq<Selector>)
    ensures Select([Descendant([Name("book")]), Child(sels)], Store) == SelectorsSelect(sels, Books)
  {
    AllBookArrays();
    SelectFromCons(Descendant([Name("book")]), [Child(sels)], [Store]);
    SelectFromCons(Child(sels), [], [Books]);
    SelectEachSingle(sels, Books);
    assert [Descendant([Name("book")])] + [Child(sels)] == [Descendant([Name("book")]), Child(sels)];
    assert [Child(sels)] + [] == [Child(sels)];
  }

  /** `$..book[2]` yields the third book. */
  lemma ThirdBook()
    ensures Select([Descendant([Name("book")]), Child([Index(2)])], Store) == Success([Book2])
  {
    AfterBookArrays([Index(2)]);
    SelectorsSingle(Index(2), Books);
  }

  /** `$..book[0,1]` yields the first two books. */
  lemma FirstTwoBooksByIndex()
    ensures Select([Descendant([Name("book")]), Child([Index(0), Index(1)])], Store) == Success([Book0, Book1])
  {
    AfterBookArrays([Index(0), Index(1)]);
    assert [Index(0), Index(1)][1..] == [Index(1)];
    SelectorsSingle(Index(1), Books);
    assert Books.elems[0] == Book0 && Books.elems[1] == Book1;
    assert SelectorSelect(Index(0), Books) == Success([Book0]);
    assert SelectorsSelect([Index(1)], Books) == Success([Book1]);
    assert [Book0] + [Book1] == [Book0, Book1];
  }

  /** `$..book[:2]` yields the first two books too. */
  lemma FirstTwoBooksBySlice()
    ensures Select([Descendant([Name("book")]), Child([Slice(None, Some(2), None)])], Store) == Success([Book0, Book1])
  {
    var sel := Slice(None, Some(2), None);
    AfterBookArrays([sel]);
    SelectorsSingle(sel, Books);
    FirstTwoOfBooks();
  }

  /** The slice `[:2]` over the book array keeps its first two books. */
  lemma FirstTwoOfBooks()
    ensures SelectorSelect(Slice(None, Some(2), None), Books) == Success([Book0, Book1])
  {
    var sel := Slice(None, Some(2), None);
    assert Ascending(2, 2, 1) == [];
    assert Ascending(1, 2, 1) == [1];
    assert Ascending(0, 2, 1) == [0, 1];
    assert SliceIndices(sel, 4) == [0, 1];
    SliceSelector(sel, Books);
    assert |Books.elems| == 4 && Books.elems[0] == Book0 && Books.elems[1] == Book1;
    var r := SelectorSelect(sel, Books).value;
    assert |r| == 2 && r[0] == Book0 && r[1] == Book1;
    assert r == [Book0, Book1];
  }

  /** `$.store.*` yields the store's values in member order. */
  lemma AllThingsInStore()
    ensures Select([Child([Name("store")]), Child([Wildcard])], Store) == Success([Books, Bicycle])
  {
    ChildOne(Name("store"), Store);
    ChildOne(Wildcard, StoreBody);
    assert Children(StoreBody) == [Books, Bicycle];
    SelectEachSingle([Wildcard], StoreBody);
    TwoSegments(Child([Name("store")]), Child([Wildcard]), Store, [StoreBody]);
  }
}
