/** The in-memory query engine and the field checks of the book service:
    every search loads all books, keeps the matching ones in their original
    order, and hands that list to `createPageFromList`, which cuts out the
    requested page and then sorts that page alone. */
module BookService {
  import opened Outcomes
  import opened Text
  import opened Library
  import opened Filtering
  import opened Paging
  import opened Ordering
  import opened Sorting

  /** A page request: zero-based page index, page size and sort orders (an
      empty sequence of orders is an unsorted request). */
  datatype Pageable = Pageable(page: nat, size: nat, sort: seq<Order>)

  /** The books on one page and the number of books the query matched. */
  datatype Page = Page(content: seq<Book>, totalElements: nat)

  // ------------------------------------------------------------- paging

  /** `applySorting`: with no orders the list is returned as it is. */
  function ApplySorting(books: seq<Book>, orders: seq<Order>): (r: seq<Book>)
    ensures multiset(r) == multiset(books)
    ensures |r| == |books|
    ensures Sorted(orders, r)
    ensures |orders| == 0 ==> r == books
  {
    if |orders| == 0 then books else Sort(orders, books)
  }

  /** `createPageFromList`: slice first, then sort the slice. The total is
      the length of the whole list, whatever the page is. */
  function CreatePageFromList(list: seq<Book>, p: Pageable): (r: Page)
    ensures r.totalElements == |list|
    ensures |r.content| <= p.size
    ensures p.page * p.size >= |list| ==> |r.content| == 0
    ensures p.page * p.size < |list| ==> |r.content| == Min(p.size, |list| - p.page * p.size)
    ensures |p.sort| == 0 ==>
              forall i :: 0 <= i < |r.content| ==> r.content[i] == list[p.page * p.size + i]
    ensures multiset(r.content) == multiset(PageSlice(list, p.page, p.size))
    ensures Sorted(p.sort, r.content)
  {
    var pageList := PageSlice(list, p.page, p.size);
    if |p.sort| > 0 then
      Page(ApplySorting(pageList, p.sort), |list|)
    else
      Page(pageList, |list|)
  }

  /** The contents of pages 0 .. n-1 of the same request, end to end. */
  function PageContents(list: seq<Book>, size: nat, orders: seq<Order>, n: nat): seq<Book> {
    if n == 0 then []
    else PageContents(list, size, orders, n - 1) + CreatePageFromList(list, Pageable(n - 1, size, orders)).content
  }

  /** Sorting never moves a book to another page: the first n pages hold
      exactly the books of the first n unsorted slices. */
  lemma {:induction false} PageContentsArePermutation(list: seq<Book>, size: nat, orders: seq<Order>, n: nat)
    ensures multiset(PageContents(list, size, orders, n)) == multiset(Pages(list, size, n))
  {
    if n > 0 {
      var m: nat := n - 1;
      PageContentsArePermutation(list, size, orders, m);
      var p := Pageable(m, size, orders);
      PageContentsStep(list, size, orders, m);
      PagesStep(list, size, m);
      PagePermutesSlice(list, p);
      ConcatPermutations(PageContents(list, size, orders, m), CreatePageFromList(list, p).content,
                         Pages(list, size, m), PageSlice(list, m, size));
    }
  }

  lemma PageContentsStep(list: seq<Book>, size: nat, orders: seq<Order>, m: nat)
    ensures PageContents(list, size, orders, m + 1) ==
            PageContents(list, size, orders, m) + CreatePageFromList(list, Pageable(m, size, orders)).content
  {
  }

  lemma PagePermutesSlice(list: seq<Book>, p: Pageable)
    ensures multiset(CreatePageFromList(list, p).content) == multiset(PageSlice(list, p.page, p.size))
  {
  }

  lemma ConcatPermutations<T>(a: seq<T>, b: seq<T>, c: seq<T>, d: seq<T>)
    requires multiset(a) == multiset(c) && multiset(b) == multiset(d)
    ensures multiset(a + b) == multiset(c + d)
  {
  }

  /** Reading every page of a request returns every listed book exactly as
      often as it occurs in the list, sorted or not. */
  lemma AllPagesCoverList(list: seq<Book>, size: nat, orders: seq<Order>)
    requires size >= 1
    ensures multiset(PageContents(list, size, orders, |list|)) == multiset(list)
    ensures |orders| == 0 ==> PageContents(list, size, orders, |list|) == list
  {
    PageContentsArePermutation(list, size, orders, |list|);
    PagesReproduceList(list, size);
    if |orders| == 0 {
      UnsortedPageContents(list, size, |list|);
    }
  }

  lemma {:induction false} UnsortedPageContents(list: seq<Book>, size: nat, n: nat)
    ensures PageContents(list, size, [], n) == Pages(list, size, n)
  {
    if n > 0 {
      UnsortedPageContents(list, size, n - 1);
    }
  }

  /** Each page is sorted on its own, but pages read one after another need
      not be: with titles "B" then "A" and one book per page, page 0 holds
      "B" and page 1 holds "A". */
  lemma SortStopsAtPageBoundary()
    ensures var orders := [Order("title", Asc)];
            var list := [Book(1, "B", "Herbert", 1965, None), Book(2, "A", "Asimov", 1951, None)];
            && Sorted(orders, CreatePageFromList(list, Pageable(0, 1, orders)).content)
            && Sorted(orders, CreatePageFromList(list, Pageable(1, 1, orders)).content)
            && !Sorted(orders, PageContents(list, 1, orders, 2))
  {
    var orders := [Order("title", Asc)];
    var b, a := Book(1, "B", "Herbert", 1965, None), Book(2, "A", "Asimov", 1951, None);
    var list := [b, a];
    SingleBookPage(list, 0, orders);
    SingleBookPage(list, 1, orders);
    PageContentsStep(list, 1, orders, 0);
    PageContentsStep(list, 1, orders, 1);
    var both := PageContents(list, 1, orders, 2);
    assert both == [b, a];
    TitleBSortsAfterA(b, a);
    assert Compare(orders, both[0], both[1]) > 0;
  }

  /** With one book per page, page `i` holds the i-th book, sorted or not. */
  lemma SingleBookPage(list: seq<Book>, i: nat, orders: seq<Order>)
    requires i < |list|
    ensures CreatePageFromList(list, Pageable(i, 1, orders)).content == [list[i]]
  {
    var content := CreatePageFromList(list, Pageable(i, 1, orders)).content;
    assert PageSlice(list, i, 1) == [list[i]];
    assert |content| == 1;
    assert content[0] in multiset(content);
  }

  lemma TitleBSortsAfterA(b: Book, a: Book)
    requires b.title == "B" && a.title == "A"
    ensures Compare([Order("title", Asc)], b, a) == 1
  {
    assert ToLower("title") == "title";
    assert KeyOf("title") == ByTitle;
    assert LowerChar('B') == 'b' && LowerChar('A') == 'a';
  }

  // ----------------------------------------------------------- matching

  /** A text argument that is null or blank after trimming. */
  predicate Missing(s: Option<string>) {
    s.None? || IsBlank(s.value)
  }

  /** `searchBooks`: the lower-cased title or author contains the
      lower-cased keyword. */
  predicate MatchesKeyword(b: Book, keyword: string) {
    Contains(ToLower(b.title), ToLower(keyword)) || Contains(ToLower(b.author), ToLower(keyword))
  }

  /** `findByAuthor`: the lower-cased author contains the lower-cased name. */
  predicate MatchesAuthor(b: Book, author: string) {
    Contains(ToLower(b.author), ToLower(author))
  }

  /** One condition of `findByTitleAndAuthor`: a missing term matches every
      field, a given one must occur in it, case-insensitively. */
  predicate MatchesTerm(field: string, term: Option<string>) {
    Missing(term) || Contains(ToLower(field), ToLower(term.value))
  }

  predicate MatchesTitleAndAuthor(b: Book, title: Option<string>, author: Option<string>) {
    MatchesTerm(b.title, title) && MatchesTerm(b.author, author)
  }

  function KeywordFilter(keyword: string): Book -> bool {
    (b: Book) => MatchesKeyword(b, keyword)
  }

  function AuthorFilter(author: string): Book -> bool {
    (b: Book) => MatchesAuthor(b, author)
  }

  function YearFilter(year: int): Book -> bool {
    (b: Book) => b.year == year
  }

  function TitleAndAuthorFilter(title: Option<string>, author: Option<string>): Book -> bool {
    (b: Book) => MatchesTitleAndAuthor(b, title, author)
  }

  // ------------------------------------------------------------ queries

  /** `searchBooks`: fails on a null or blank keyword, otherwise pages the
      books whose title or author contains it. */
  function SearchBooks(books: seq<Book>, keyword: Option<string>, p: Pageable): (r: Result<Page>)
    ensures r.Err? <==> Missing(keyword)
    ensures r.Err? ==> r.error == InvalidRequest(KeywordBlank)
    ensures r.Ok? ==> r.value.totalElements == |Filter(books, KeywordFilter(keyword.value))|
    ensures r.Ok? ==> forall b :: b in r.value.content ==> b in books && MatchesKeyword(b, keyword.value)
    ensures r.Ok? ==> r.value == CreatePageFromList(Filter(books, KeywordFilter(keyword.value)), p)
  {
    if Missing(keyword) then Err(InvalidRequest(KeywordBlank))
    else
      var matching := Filter(books, KeywordFilter(keyword.value));
      var page := CreatePageFromList(matching, p);
      PageHoldsListed(matching, p);
      Ok(page)
  }

  /** `findByAuthor`: fails on a null or blank name, otherwise pages the
      books whose author contains it. */
  function FindByAuthor(books: seq<Book>, author: Option<string>, p: Pageable): (r: Result<Page>)
    ensures r.Err? <==> Missing(author)
    ensures r.Err? ==> r.error == InvalidRequest(AuthorQueryBlank)
    ensures r.Ok? ==> r.value.totalElements == |Filter(books, AuthorFilter(author.value))|
    ensures r.Ok? ==> forall b :: b in r.value.content ==> b in books && MatchesAuthor(b, author.value)
    ensures r.Ok? ==> r.value == CreatePageFromList(Filter(books, AuthorFilter(author.value)), p)
  {
    if Missing(author) then Err(InvalidRequest(AuthorQueryBlank))
    else
      var matching := Filter(books, AuthorFilter(author.value));
      PageHoldsListed(matching, p);
      Ok(CreatePageFromList(matching, p))
  }

  /** `findByYear`: fails on a null year or one outside [0, 2100], otherwise
      pages the books of exactly that year. */
  function FindByYear(books: seq<Book>, year: Option<int>, p: Pageable): (r: Result<Page>)
    ensures year.None? ==> r == Err(InvalidRequest(YearQueryMissing))
    ensures year.Some? && !YearInRange(year.value) ==> r == Err(InvalidRequest(YearQueryOutOfRange))
    ensures r.Ok? <==> year.Some? && YearInRange(year.value)
    ensures r.Ok? ==> r.value.totalElements == |Filter(books, YearFilter(year.value))|
    ensures r.Ok? ==> forall b :: b in r.value.content ==> b in books && b.year == year.value
    ensures r.Ok? ==> r.value == CreatePageFromList(Filter(books, YearFilter(year.value)), p)
  {
    if year.None? then Err(InvalidRequest(YearQueryMissing))
    else if year.value < MinYear || year.value > MaxYear then Err(InvalidRequest(YearQueryOutOfRange))
    else
      var matching := Filter(books, YearFilter(year.value));
      PageHoldsListed(matching, p);
      Ok(CreatePageFromList(matching, p))
  }

  /** `findByTitleAndAuthor`: fails only when both terms are missing; a
      missing term matches every book and the two conditions must both
      hold. */
  function FindByTitleAndAuthor(books: seq<Book>, title: Option<string>, author: Option<string>, p: Pageable): (r: Result<Page>)
    ensures r.Err? <==> Missing(title) && Missing(author)
    ensures r.Err? ==> r.error == InvalidRequest(NoSearchTerm)
    ensures r.Ok? ==> r.value.totalElements == |Filter(books, TitleAndAuthorFilter(title, author))|
    ensures r.Ok? ==> forall b :: b in r.value.content ==>
              b in books && MatchesTerm(b.title, title) && MatchesTerm(b.author, author)
    ensures r.Ok? ==> r.value == CreatePageFromList(Filter(books, TitleAndAuthorFilter(title, author)), p)
  {
    if Missing(title) && Missing(author) then Err(InvalidRequest(NoSearchTerm))
    else
      var matching := Filter(books, TitleAndAuthorFilter(title, author));
      PageHoldsListed(matching, p);
      Ok(CreatePageFromList(matching, p))
  }

  /** Every book on a page comes from the list the page was cut from. */
  lemma PageHoldsListed(list: seq<Book>, p: Pageable)
    ensures forall b :: b in CreatePageFromList(list, p).content ==> b in list
  {
    forall b | b in CreatePageFromList(list, p).content
      ensures b in list
    {
      PagePermutesSlice(list, p);
      assert b in multiset(CreatePageFromList(list, p).content);
      SliceHoldsListed(list, p.page, p.size, b);
    }
  }

  // ---------------------------------------------------- query properties

  /** Lower-casing leaves blank strings blank and non-blank ones non-blank. */
  lemma BlankIgnoresCase(s: string, t: string)
    requires ToLower(s) == ToLower(t)
    ensures IsBlank(s) <==> IsBlank(t)
  {
    var l := ToLower(s);
    assert |s| == |t| == |l|;
    forall i | 0 <= i < |s|
      ensures IsTrimmable(s[i]) <==> IsTrimmable(t[i])
    {
      assert l[i] == LowerChar(s[i]) == LowerChar(t[i]);
    }
    BlankIffAllTrimmable(s);
    BlankIffAllTrimmable(t);
  }

  /** The keyword search is case-insensitive: keywords that differ only in
      the case of their letters give the same page, or the same failure. */
  lemma SearchIgnoresCase(books: seq<Book>, k1: string, k2: string, p: Pageable)
    requires ToLower(k1) == ToLower(k2)
    ensures SearchBooks(books, Some(k1), p) == SearchBooks(books, Some(k2), p)
  {
    BlankIgnoresCase(k1, k2);
    FilterCongruent(books, KeywordFilter(k1), KeywordFilter(k2));
  }

  /** A missing title leaves only the author condition:
      `findByTitleAndAuthor` then answers exactly like `findByAuthor`. */
  lemma MissingTitleMeansFindByAuthor(books: seq<Book>, title: Option<string>, author: string, p: Pageable)
    requires Missing(title) && !IsBlank(author)
    ensures FindByTitleAndAuthor(books, title, Some(author), p) == FindByAuthor(books, Some(author), p)
  {
    FilterCongruent(books, TitleAndAuthorFilter(title, Some(author)), AuthorFilter(author));
  }

  // --------------------------------------------------------- validation

  /** `validateBookForCreation`: title, author and year are all required
      and the year lies in [0, 2100]; the first failed check names the
      reason. */
  function ValidateBookForCreation(input: Option<BookInput>): (r: Check)
    ensures r.Pass? <==>
              && input.Some?
              && !Missing(input.value.title)
              && !Missing(input.value.author)
              && input.value.year.Some? && YearInRange(input.value.year.value)
    ensures input.None? ==> r == Fail(InvalidRequest(BookBodyMissing))
    ensures input.Some? && Missing(input.value.title) ==> r == Fail(InvalidRequest(TitleRequired))
    ensures input.Some? && !Missing(input.value.title) && Missing(input.value.author) ==>
              r == Fail(InvalidRequest(AuthorRequired))
    ensures input.Some? && !Missing(input.value.title) && !Missing(input.value.author) ==>
              && (input.value.year.None? ==> r == Fail(InvalidRequest(YearRequired)))
              && (input.value.year.Some? && !YearInRange(input.value.year.value) ==>
                    r == Fail(InvalidRequest(YearOutOfRange)))
    ensures r.Fail? ==> r.error.InvalidRequest?
  {
    if input.None? then Fail(InvalidRequest(BookBodyMissing))
    else
      var b := input.value;
      if b.title.None? || IsBlank(b.title.value) then Fail(InvalidRequest(TitleRequired))
      else if b.author.None? || IsBlank(b.author.value) then Fail(InvalidRequest(AuthorRequired))
      else if b.year.None? then Fail(InvalidRequest(YearRequired))
      else if b.year.value < MinYear || b.year.value > MaxYear then Fail(InvalidRequest(YearOutOfRange))
      else Pass
  }

  /** `validateBookForUpdate`: a null field is accepted (nothing to check);
      only a field that is present but blank, or a present year out of
      range, is refused. */
  function ValidateBookForUpdate(input: Option<BookInput>): (r: Check)
    ensures r.Pass? <==>
              && input.Some?
              && (input.value.title.Some? ==> !IsBlank(input.value.title.value))
              && (input.value.author.Some? ==> !IsBlank(input.value.author.value))
              && (input.value.year.Some? ==> YearInRange(input.value.year.value))
    ensures input.None? ==> r == Fail(InvalidRequest(UpdateBodyMissing))
    ensures input.Some? && input.value.title.Some? && IsBlank(input.value.title.value) ==>
              r == Fail(InvalidRequest(TitleBlank))
    ensures input.Some? && (input.value.title.Some? ==> !IsBlank(input.value.title.value)) ==>
              && (input.value.author.Some? && IsBlank(input.value.author.value) ==>
                    r == Fail(InvalidRequest(AuthorBlank)))
              && (r.Fail? && !(input.value.author.Some? && IsBlank(input.value.author.value)) ==>
                    r == Fail(InvalidRequest(YearOutOfRange)))
    ensures input == Some(BookInput(None, None, None)) ==> r.Pass?
  {
    if input.None? then Fail(InvalidRequest(UpdateBodyMissing))
    else
      var b := input.value;
      if b.title.Some? && IsBlank(b.title.value) then Fail(InvalidRequest(TitleBlank))
      else if b.author.Some? && IsBlank(b.author.value) then Fail(InvalidRequest(AuthorBlank))
      else if b.year.Some? && (b.year.value < MinYear || b.year.value > MaxYear) then Fail(InvalidRequest(YearOutOfRange))
      else Pass
  }

  /** Every body accepted for creation is accepted for an update. */
  lemma CreationStricterThanUpdate(input: Option<BookInput>)
    ensures ValidateBookForCreation(input).Pass? ==> ValidateBookForUpdate(input).Pass?
  {
  }
}
