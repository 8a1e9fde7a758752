// The admin list of books (Pages/Admin/Books/Index): up to eleven optional
// filters applied one `Where` at a time, a sort chosen by name and
// direction, pages of ten, and the links that re-sort the list.
module BooksIndex {
  import opened Seqs
  import opened Sorting
  import opened Text
  import opened Entities
  import opened AdminLists
  import BookService

  const BooksPageSize: int := 10

  /** The bound filter properties; `None` (or an empty genre list) switches a filter off. */
  datatype BookFilters = BookFilters(
    searchTitle: Option<string>,
    searchDescription: Option<string>,
    authorId: Option<int>,
    publisherId: Option<int>,
    selectedGenres: seq<string>,
    minYear: Option<int>,
    maxYear: Option<int>,
    minPrice: Option<real>,
    maxPrice: Option<real>,
    createdFromDate: Option<Time>,
    createdToDate: Option<Time>)

  /**
   * The conversions of the two picked dates into the instants compared
   * with `CreatedAt`: the start of the first day, and the last tick of the
   * second day (`Date.AddDays(1).ToUniversalTime().AddTicks(-1)`). They
   * depend on the server's time zone and are given.
   */
  datatype DateBounds = DateBounds(fromUtc: Time -> Time, toUtc: Time -> Time)

  /** The order of two instants. */
  predicate Earlier(a: Time, b: Time)
  {
    a.year < b.year ||
    (a.year == b.year && (a.month < b.month ||
      (a.month == b.month && (a.day < b.day || (a.day == b.day && a.tick < b.tick)))))
  }

  // ---------------------------------------------------------------------------
  // The filters, each as the `Where` it adds.

  function TitleStage(f: BookFilters): Book -> bool
  {
    (b: Book) => f.searchTitle.Some? && Contains(b.title, f.searchTitle.value)
  }

  function DescriptionStage(f: BookFilters): Book -> bool
  {
    (b: Book) => f.searchDescription.Some? && b.description.Some? &&
      Contains(ToLower(b.description.value), ToLower(f.searchDescription.value))
  }

  function AuthorStage(f: BookFilters): Book -> bool
  {
    (b: Book) => f.authorId.Some? && b.authorId == f.authorId
  }

  function PublisherStage(f: BookFilters): Book -> bool
  {
    (b: Book) => f.publisherId.Some? && b.publisherId == f.publisherId
  }

  function GenreStage(f: BookFilters): Book -> bool
  {
    (b: Book) => b.genre.Some? && b.genre.value in f.selectedGenres
  }

  function MinYearStage(f: BookFilters): Book -> bool
  {
    (b: Book) => f.minYear.Some? && b.publishedYear.Some? && b.publishedYear.value >= f.minYear.value
  }

  function MaxYearStage(f: BookFilters): Book -> bool
  {
    (b: Book) => f.maxYear.Some? && b.publishedYear.Some? && b.publishedYear.value <= f.maxYear.value
  }

  function MinPriceStage(f: BookFilters): Book -> bool
  {
    (b: Book) => f.minPrice.Some? && b.price.Some? && b.price.value >= f.minPrice.value
  }

  function MaxPriceStage(f: BookFilters): Book -> bool
  {
    (b: Book) => f.maxPrice.Some? && b.price.Some? && b.price.value <= f.maxPrice.value
  }

  function CreatedFromStage(f: BookFilters, d: DateBounds): Book -> bool
  {
    (b: Book) => f.createdFromDate.Some? && b.createdAt.Some? &&
      !Earlier(b.createdAt.value, d.fromUtc(f.createdFromDate.value))
  }

  function CreatedToStage(f: BookFilters, d: DateBounds): Book -> bool
  {
    (b: Book) => f.createdToDate.Some? && b.createdAt.Some? &&
      Earlier(b.createdAt.value, d.toUtc(f.createdToDate.value))
  }

  predicate AuthorGiven(f: BookFilters) { f.authorId.Some? && f.authorId.value > 0 }
  predicate PublisherGiven(f: BookFilters) { f.publisherId.Some? && f.publisherId.value > 0 }

  /**
   * What a book must satisfy to be listed: every filter that is set. The
   * title search is case-sensitive, the description search is not; a
   * missing year, price, genre, description or creation time fails the
   * filter on it; the year and price bounds are inclusive; the creation
   * window starts at the first instant and stops before the last one.
   */
  predicate BookPasses(f: BookFilters, d: DateBounds, b: Book)
  {
    (Given(f.searchTitle) ==> Contains(b.title, f.searchTitle.value)) &&
    (Given(f.searchDescription) ==>
       b.description.Some? && Contains(ToLower(b.description.value), ToLower(f.searchDescription.value))) &&
    (AuthorGiven(f) ==> b.authorId == f.authorId) &&
    (PublisherGiven(f) ==> b.publisherId == f.publisherId) &&
    (|f.selectedGenres| > 0 ==> b.genre.Some? && b.genre.value in f.selectedGenres) &&
    (f.minYear.Some? ==> b.publishedYear.Some? && b.publishedYear.value >= f.minYear.value) &&
    (f.maxYear.Some? ==> b.publishedYear.Some? && b.publishedYear.value <= f.maxYear.value) &&
    (f.minPrice.Some? ==> b.price.Some? && b.price.value >= f.minPrice.value) &&
    (f.maxPrice.Some? ==> b.price.Some? && b.price.value <= f.maxPrice.value) &&
    (f.createdFromDate.Some? ==> b.createdAt.Some? && !Earlier(b.createdAt.value, d.fromUtc(f.createdFromDate.value))) &&
    (f.createdToDate.Some? ==> b.createdAt.Some? && Earlier(b.createdAt.value, d.toUtc(f.createdToDate.value)))
  }

  function BookPass(f: BookFilters, d: DateBounds): Book -> bool
  {
    (b: Book) => BookPasses(f, d, b)
  }

  /** The books every set filter keeps, in table order. */
  function MatchingBooks(t: Tables, f: BookFilters, d: DateBounds): seq<Book>
  {
    Filter(t.books, BookPass(f, d))
  }

  /** A book is listed exactly when it is in the table and passes every filter that is set; the count never exceeds the table's. */
  lemma MatchingBooksSpec(t: Tables, f: BookFilters, d: DateBounds)
    ensures forall b :: b in MatchingBooks(t, f, d) <==> b in t.books && BookPasses(f, d, b)
    ensures |MatchingBooks(t, f, d)| <= |t.books|
  {
  }

  /** With no filter set every book is listed, in table order. */
  lemma NoFiltersListAll(t: Tables, d: DateBounds)
    ensures MatchingBooks(t, BookFilters(None, None, None, None, [], None, None, None, None, None, None), d) == t.books
  {
    FilterAll(t.books, BookPass(BookFilters(None, None, None, None, [], None, None, None, None, None, None), d));
  }

  /** The `Where` stages AND-ed in the order `LoadBooks` adds them. */
  ghost function Staged(f: BookFilters, d: DateBounds): Book -> bool
  {
    AndIf(AndIf(AndIf(AndIf(AndIf(AndIf(AndIf(AndIf(AndIf(AndIf(AndIf(Always(),
      Given(f.searchTitle), TitleStage(f)),
      Given(f.searchDescription), DescriptionStage(f)),
      AuthorGiven(f), AuthorStage(f)),
      PublisherGiven(f), PublisherStage(f)),
      |f.selectedGenres| > 0, GenreStage(f)),
      f.minYear.Some?, MinYearStage(f)),
      f.maxYear.Some?, MaxYearStage(f)),
      f.minPrice.Some?, MinPriceStage(f)),
      f.maxPrice.Some?, MaxPriceStage(f)),
      f.createdFromDate.Some?, CreatedFromStage(f, d)),
      f.createdToDate.Some?, CreatedToStage(f, d))
  }

  /** The stages, each applied only when its filter is set, keep exactly the books that pass every set filter. */
  lemma StagedMatches(t: Tables, f: BookFilters, d: DateBounds)
    ensures Filter(t.books, Staged(f, d)) == MatchingBooks(t, f, d)
  {
    forall b | b in t.books
      ensures Staged(f, d)(b) <==> BookPass(f, d)(b)
    {
    }
    FilterCongruent(t.books, Staged(f, d), BookPass(f, d));
  }

  /**
   * `if (on) query = query.Where(p);`. The query so far is the table
   * filtered by the stages `r` already applied; afterwards it is the table
   * filtered by those stages and this one.
   */
  method Narrow(ghost s: seq<Book>, ghost r: Book -> bool, query: seq<Book>, on: bool, p: Book -> bool) returns (q: seq<Book>)
    requires query == Filter(s, r)
    ensures q == Filter(s, AndIf(r, on, p))
  {
    q := query;
    if on {
      q := Filter(query, p);
    }
    NarrowStep(s, r, on, p);
  }

  /**
   * The `Where` calls of `LoadBooks`, each made only when its filter is
   * set. The filters are AND-ed: the query narrowed one `Where` at a time
   * is the table filtered once by every set filter, in table order.
   */
  method ApplyFilters(t: Tables, f: BookFilters, d: DateBounds) returns (query: seq<Book>)
    ensures query == MatchingBooks(t, f, d)
  {
    query := t.books;
    ghost var r: Book -> bool := Always();
    FilterAll(t.books, r);
    query := Narrow(t.books, r, query, Given(f.searchTitle), TitleStage(f));
    r := AndIf(r, Given(f.searchTitle), TitleStage(f));
    query := Narrow(t.books, r, query, Given(f.searchDescription), DescriptionStage(f));
    r := AndIf(r, Given(f.searchDescription), DescriptionStage(f));
    query := Narrow(t.books, r, query, AuthorGiven(f), AuthorStage(f));
    r := AndIf(r, AuthorGiven(f), AuthorStage(f));
    query := Narrow(t.books, r, query, PublisherGiven(f), PublisherStage(f));
    r := AndIf(r, PublisherGiven(f), PublisherStage(f));
    query := Narrow(t.books, r, query, |f.selectedGenres| > 0, GenreStage(f));
    r := AndIf(r, |f.selectedGenres| > 0, GenreStage(f));
    query := Narrow(t.books, r, query, f.minYear.Some?, MinYearStage(f));
    r := AndIf(r, f.minYear.Some?, MinYearStage(f));
    query := Narrow(t.books, r, query, f.maxYear.Some?, MaxYearStage(f));
    r := AndIf(r, f.maxYear.Some?, MaxYearStage(f));
    query := Narrow(t.books, r, query, f.minPrice.Some?, MinPriceStage(f));
    r := AndIf(r, f.minPrice.Some?, MinPriceStage(f));
    query := Narrow(t.books, r, query, f.maxPrice.Some?, MaxPriceStage(f));
    r := AndIf(r, f.maxPrice.Some?, MaxPriceStage(f));
    query := Narrow(t.books, r, query, f.createdFromDate.Some?, CreatedFromStage(f, d));
    r := AndIf(r, f.createdFromDate.Some?, CreatedFromStage(f, d));
    query := Narrow(t.books, r, query, f.createdToDate.Some?, CreatedToStage(f, d));
    r := AndIf(r, f.createdToDate.Some?, CreatedToStage(f, d));
    StagedMatches(t, f, d);
  }

  // ---------------------------------------------------------------------------
  // The sort switch

  datatype BookColumn = ByTitle | ByAuthor | ByPublisher | ByGenre | ByPrice | ByYear | ByViews | ByCreated

  /** The column a (lowered) sort name selects, if it is one of the eight known ones. */
  function ParseBookColumn(sortBy: string): Option<BookColumn>
  {
    var s := ToLower(sortBy);
    if s == "title" then Some(ByTitle)
    else if s == "author" then Some(ByAuthor)
    else if s == "publisher" then Some(ByPublisher)
    else if s == "genre" then Some(ByGenre)
    else if s == "price" then Some(ByPrice)
    else if s == "publishedyear" then Some(ByYear)
    else if s == "viewcount" then Some(ByViews)
    else if s == "createdat" then Some(ByCreated)
    else None
  }

  /**
   * The column and direction: a known column sorts ascending exactly when
   * the direction is "asc" as written, and descending otherwise; an unknown
   * one sorts newest first.
   */
  function BookSort(sortBy: string, sortDirection: string): (BookColumn, bool)
  {
    var o := ParseBookColumn(sortBy);
    if o.Some? then (o.value, sortDirection != "asc") else (ByCreated, true)
  }

  /**
   * The key PostgreSQL compares. The author and publisher names come from
   * the joined rows, and a book without one, like a missing genre, price,
   * year, view count or creation time, sorts as the largest value.
   */
  function BookColumnKey(t: Tables, o: BookColumn): Book -> Key
  {
    (b: Book) =>
      match o
      case ByTitle => [Str(b.title)]
      case ByAuthor => OptStrKey(BookService.AuthorNameOf(t, b), true)
      case ByPublisher => OptStrKey(BookService.PublisherNameOf(t, b), true)
      case ByGenre => OptStrKey(b.genre, true)
      case ByPrice => if b.price.Some? then [Num(b.price.value)] else [NullLast]
      case ByYear => OptIntKey(b.publishedYear, true)
      case ByViews => OptIntKey(b.viewCount, true)
      case ByCreated => TimeKey(b.createdAt, true)
  }

  /** Only "asc" as written sorts ascending, and only on a known column; an unknown column lists the newest books first. */
  lemma BookSortSpec(sortBy: string, sortDirection: string)
    ensures BookSort(sortBy, sortDirection).1 <==> sortDirection != "asc" || ParseBookColumn(sortBy).None?
    ensures ParseBookColumn(sortBy).None? ==> BookSort(sortBy, sortDirection) == (ByCreated, true)
  {
  }

  /** The bound defaults ("CreatedAt", "desc") list the newest books first. */
  lemma DefaultSortNewestFirst()
    ensures BookSort("CreatedAt", "desc") == (ByCreated, true)
  {
    var s := ToLower("CreatedAt");
    assert s == "createdat";
    assert |s| == 9 && s[0] == 'c';
    assert ParseBookColumn("CreatedAt") == Some(ByCreated);
  }

  /** The column name is matched case-insensitively, the direction is not: "ASC" sorts descending. */
  lemma DirectionIsCaseSensitive()
    ensures BookSort("Price", "ASC") == (ByPrice, true)
  {
    assert ToLower("Price") == "price";
    assert "ASC" != "asc";
  }

  // ---------------------------------------------------------------------------
  // LoadBooks

  /** The bound query parameters and the properties `LoadBooks` fills in. */
  class BooksIndexPage {
    var filters: BookFilters
    var sortBy: string
    var sortDirection: string
    var pageNumber: int
    var totalBooks: nat
    var filteredBooks: nat
    var books: seq<Book>

    /** The page as bound from the query string, before loading. */
    constructor (filters: BookFilters, sortBy: string, sortDirection: string, pageNumber: int)
      ensures this.filters == filters && this.sortBy == sortBy
      ensures this.sortDirection == sortDirection && this.pageNumber == pageNumber
      ensures totalBooks == 0 && filteredBooks == 0 && books == []
    {
      this.filters := filters;
      this.sortBy := sortBy;
      this.sortDirection := sortDirection;
      this.pageNumber := pageNumber;
      totalBooks, filteredBooks, books := 0, 0, [];
    }

    /** `TotalPages`, computed from the filtered count. */
    function TotalPages(): nat
      reads this
    {
      CeilDiv(filteredBooks, BooksPageSize)
    }

    /** The sorted matching books. */
    function Ordered(t: Tables, d: DateBounds): seq<Book>
      reads this
    {
      var (o, desc) := BookSort(sortBy, sortDirection);
      SortBy(MatchingBooks(t, filters, d), BookColumnKey(t, o), desc)
    }

    /**
     * `LoadBooks`: the counts are always set; the page query fails (and the
     * list is not replaced) exactly when the page number is below one, since
     * PostgreSQL rejects a negative OFFSET.
     */
    method LoadBooks(t: Tables, d: DateBounds) returns (ok: bool)
      modifies this
      ensures filters == old(filters) && sortBy == old(sortBy)
      ensures sortDirection == old(sortDirection) && pageNumber == old(pageNumber)
      ensures totalBooks == |t.books|
      ensures filteredBooks == |MatchingBooks(t, filters, d)|
      ensures ok <==> pageNumber >= 1
      ensures ok ==> books == PageOf(Ordered(t, d), pageNumber, BooksPageSize)
      ensures !ok ==> books == old(books)
    {
      var query := ApplyFilters(t, filters, d);
      var filtered := |query|;
      var (o, desc) := BookSort(sortBy, sortDirection);
      query := SortBy(query, BookColumnKey(t, o), desc);
      var page := DbPage(query, pageNumber, BooksPageSize);
      OffsetIsProduct(pageNumber, BooksPageSize);
      ok := page.Some?;
      Show(|t.books|, filtered, if ok then page.value else books);
    }

    /** Sets the properties the view renders; the bound query parameters stay. */
    method Show(total: nat, filtered: nat, listed: seq<Book>)
      modifies this
      ensures filters == old(filters) && sortBy == old(sortBy)
      ensures sortDirection == old(sortDirection) && pageNumber == old(pageNumber)
      ensures totalBooks == total && filteredBooks == filtered && books == listed
    {
      totalBooks, filteredBooks, books := total, filtered, listed;
    }

    /**
     * `GetSortUrl`: the query string of the column header link for
     * `sortField`, built one parameter at a time in the order of the source.
     */
    method GetSortUrl(sortField: string, fmt: UrlFormat) returns (url: string)
      ensures url == SortUrl(filters, sortBy, sortDirection, sortField, fmt)
    {
      var queryParams: seq<string> := [];
      queryParams := AddSearchParams(queryParams, filters, fmt);
      assert queryParams == SearchParams(filters, fmt);
      queryParams := AddGenreParams(queryParams, filters.selectedGenres, fmt.escape);
      queryParams := AddYearParams(queryParams, filters);
      queryParams := AddPriceParams(queryParams, filters, fmt);
      queryParams := AddDateParams(queryParams, filters);
      queryParams := queryParams + [Param("SortBy", sortField)];
      var newDirection := if sortBy == sortField && sortDirection == "asc" then "desc" else "asc";
      queryParams := queryParams + [Param("SortDirection", newDirection)];
      queryParams := queryParams + ["PageNumber=1"];
      assert queryParams == SortParams(filters, sortBy, sortDirection, sortField, fmt);
      url := "?" + Join("&", queryParams);
    }
  }

  /**
   * A page in range holds between one and ten books, all matching and in
   * the selected order; a page past the last one is empty, since the page
   * number is not clamped.
   */
  lemma BooksPageSpec(t: Tables, f: BookFilters, d: DateBounds, sortBy: string, sortDirection: string, page: int)
    requires page >= 1
    ensures var matching := MatchingBooks(t, f, d);
      var (o, desc) := BookSort(sortBy, sortDirection);
      var listed := PageOf(SortBy(matching, BookColumnKey(t, o), desc), page, BooksPageSize);
      |listed| <= BooksPageSize && Sorted(listed, BookColumnKey(t, o), desc) &&
      (forall b :: b in listed ==> b in t.books && BookPasses(f, d, b)) &&
      (page <= CeilDiv(|matching|, BooksPageSize) ==> |listed| > 0) &&
      (page > CeilDiv(|matching|, BooksPageSize) ==> listed == [])
  {
    var matching := MatchingBooks(t, f, d);
    var (o, desc) := BookSort(sortBy, sortDirection);
    var sorted := SortBy(matching, BookColumnKey(t, o), desc);
    SortBySorted(matching, BookColumnKey(t, o), desc);
    PageSorted(sorted, BookColumnKey(t, o), desc, page, BooksPageSize);
    SortByMembers(matching, BookColumnKey(t, o), desc);
    MatchingBooksSpec(t, f, d);
    PageBounds(sorted, page, BooksPageSize);
    var pages := CeilDiv(|matching|, BooksPageSize);
    if page <= pages {
      PageInRangeNonEmpty(sorted, page, BooksPageSize);
    } else {
      CeilDivBounds(|matching|, BooksPageSize);
      OffsetIsProduct(page, BooksPageSize);
      MulMono(pages, page - 1, BooksPageSize);
    }
  }

  // ---------------------------------------------------------------------------
  // GetSortUrl

  /**
   * The text conversions the query string depends on and the model does
   * not spell out: `Uri.EscapeDataString`, and a decimal price in the
   * current culture.
   */
  datatype UrlFormat = UrlFormat(escape: string -> string, price: real -> string)

  function Param(name: string, value: string): string
  {
    name + "=" + value
  }

  /** `{0:yyyy-MM-dd}`; the fields of a real date are positive. */
  function DateText(t: Time): string
  {
    PadZeros(if t.year < 0 then 0 else t.year, 4) + "-" +
    PadZeros(if t.month < 0 then 0 else t.month, 2) + "-" +
    PadZeros(if t.day < 0 then 0 else t.day, 2)
  }

  /** The searches and the author and publisher, each when its filter is set. */
  function SearchParams(f: BookFilters, fmt: UrlFormat): seq<string>
  {
    (if Given(f.searchTitle) then [Param("SearchTitle", fmt.escape(f.searchTitle.value))] else []) +
    (if Given(f.searchDescription) then [Param("SearchDescription", fmt.escape(f.searchDescription.value))] else []) +
    (if AuthorGiven(f) then [Param("AuthorId", IntToString(f.authorId.value))] else []) +
    (if PublisherGiven(f) then [Param("PublisherId", IntToString(f.publisherId.value))] else [])
  }

  /** One `SelectedGenres` parameter per selected genre, in order. */
  function GenreParams(genres: seq<string>, escape: string -> string): (r: seq<string>)
    ensures |r| == |genres|
    ensures forall k :: 0 <= k < |genres| ==> r[k] == Param("SelectedGenres", escape(genres[k]))
  {
    if genres == [] then []
    else GenreParams(genres[..|genres| - 1], escape) + [Param("SelectedGenres", escape(genres[|genres| - 1]))]
  }

  /** The year bounds, then the price bounds, then the creation dates, each when it is set. */
  function YearParams(f: BookFilters): seq<string>
  {
    (if f.minYear.Some? then [Param("MinYear", IntToString(f.minYear.value))] else []) +
    (if f.maxYear.Some? then [Param("MaxYear", IntToString(f.maxYear.value))] else [])
  }

  function PriceParams(f: BookFilters, fmt: UrlFormat): seq<string>
  {
    (if f.minPrice.Some? then [Param("MinPrice", fmt.price(f.minPrice.value))] else []) +
    (if f.maxPrice.Some? then [Param("MaxPrice", fmt.price(f.maxPrice.value))] else [])
  }

  function DateParams(f: BookFilters): seq<string>
  {
    (if f.createdFromDate.Some? then [Param("CreatedFromDate", DateText(f.createdFromDate.value))] else []) +
    (if f.createdToDate.Some? then [Param("CreatedToDate", DateText(f.createdToDate.value))] else [])
  }

  /** The direction a header link asks for: it reverses an ascending sort on its own column and is ascending otherwise. */
  function NewDirection(sortBy: string, sortDirection: string, sortField: string): string
  {
    if sortBy == sortField && sortDirection == "asc" then "desc" else "asc"
  }

  /** The parameters of the link: every set filter, then the column, the direction and the first page. */
  function SortParams(f: BookFilters, sortBy: string, sortDirection: string, sortField: string, fmt: UrlFormat): seq<string>
  {
    SearchParams(f, fmt) + GenreParams(f.selectedGenres, fmt.escape) + YearParams(f) + PriceParams(f, fmt) + DateParams(f) +
    [Param("SortBy", sortField)] + [Param("SortDirection", NewDirection(sortBy, sortDirection, sortField))] + ["PageNumber=1"]
  }

  function SortUrl(f: BookFilters, sortBy: string, sortDirection: string, sortField: string, fmt: UrlFormat): string
  {
    "?" + Join("&", SortParams(f, sortBy, sortDirection, sortField, fmt))
  }

  /**
   * Following a header link sorts by its column, descending exactly when
   * the list was sorted ascending by that same column, and ascending
   * otherwise.
   */
  lemma SortLinkToggles(sortBy: string, sortDirection: string, sortField: string)
    requires ParseBookColumn(sortField).Some?
    ensures BookSort(sortField, NewDirection(sortBy, sortDirection, sortField)) ==
      (ParseBookColumn(sortField).value, sortBy == sortField && sortDirection == "asc")
  {
  }

  /** No part of the list holds an ampersand. */
  predicate AmpFree(parts: seq<string>)
  {
    forall p :: p in parts ==> '&' !in p
  }

  lemma ParamAmpFree(name: string, value: string)
    requires '&' !in name && '&' !in value
    ensures '&' !in Param(name, value)
  {
    assert Param(name, value) == name + "=" + value;
  }

  lemma IntTextAmpFree(i: int)
    ensures '&' !in IntToString(i)
  {
    var r := IntToString(i);
    forall k | 0 <= k < |r|
      ensures r[k] != '&'
    {
    }
  }

  lemma DateTextAmpFree(t: Time)
    ensures '&' !in DateText(t)
  {
    var y := PadZeros(if t.year < 0 then 0 else t.year, 4);
    var m := PadZeros(if t.month < 0 then 0 else t.month, 2);
    var d := PadZeros(if t.day < 0 then 0 else t.day, 2);
    assert DateText(t) == y + "-" + m + "-" + d;
    assert forall k :: 0 <= k < |y| ==> y[k] != '&';
    assert forall k :: 0 <= k < |m| ==> m[k] != '&';
    assert forall k :: 0 <= k < |d| ==> d[k] != '&';
  }

  lemma SearchParamsAmpFree(f: BookFilters, fmt: UrlFormat)
    requires forall x :: '&' !in fmt.escape(x)
    ensures AmpFree(SearchParams(f, fmt))
  {
    if Given(f.searchTitle) {
      ParamAmpFree("SearchTitle", fmt.escape(f.searchTitle.value));
    }
    if Given(f.searchDescription) {
      ParamAmpFree("SearchDescription", fmt.escape(f.searchDescription.value));
    }
    if AuthorGiven(f) {
      IntTextAmpFree(f.authorId.value);
      ParamAmpFree("AuthorId", IntToString(f.authorId.value));
    }
    if PublisherGiven(f) {
      IntTextAmpFree(f.publisherId.value);
      ParamAmpFree("PublisherId", IntToString(f.publisherId.value));
    }
  }

  lemma GenreParamsAmpFree(genres: seq<string>, escape: string -> string)
    requires forall x :: '&' !in escape(x)
    ensures AmpFree(GenreParams(genres, escape))
  {
    forall p | p in GenreParams(genres, escape)
      ensures '&' !in p
    {
      var k :| 0 <= k < |genres| && GenreParams(genres, escape)[k] == p;
      ParamAmpFree("SelectedGenres", escape(genres[k]));
    }
  }

  lemma YearParamsAmpFree(f: BookFilters)
    ensures AmpFree(YearParams(f))
  {
    if f.minYear.Some? {
      IntTextAmpFree(f.minYear.value);
      ParamAmpFree("MinYear", IntToString(f.minYear.value));
    }
    if f.maxYear.Some? {
      IntTextAmpFree(f.maxYear.value);
      ParamAmpFree("MaxYear", IntToString(f.maxYear.value));
    }
  }

  lemma PriceParamsAmpFree(f: BookFilters, fmt: UrlFormat)
    requires forall x: real :: '&' !in fmt.price(x)
    ensures AmpFree(PriceParams(f, fmt))
  {
    if f.minPrice.Some? {
      var v: real := f.minPrice.value;
      assert '&' !in fmt.price(v);
      ParamAmpFree("MinPrice", fmt.price(v));
    }
    if f.maxPrice.Some? {
      var v: real := f.maxPrice.value;
      assert '&' !in fmt.price(v);
      ParamAmpFree("MaxPrice", fmt.price(v));
    }
  }

  lemma DateParamsAmpFree(f: BookFilters)
    ensures AmpFree(DateParams(f))
  {
    if f.createdFromDate.Some? {
      DateTextAmpFree(f.createdFromDate.value);
      ParamAmpFree("CreatedFromDate", DateText(f.createdFromDate.value));
    }
    if f.createdToDate.Some? {
      DateTextAmpFree(f.createdToDate.value);
      ParamAmpFree("CreatedToDate", DateText(f.createdToDate.value));
    }
  }

  /**
   * When neither the escaping nor the price text produces an ampersand,
   * and the column name holds none, the query string splits back into its
   * parameters, the last three being the column, the new direction and
   * the first page.
   */
  lemma SortUrlRoundTrip(f: BookFilters, sortBy: string, sortDirection: string, sortField: string, fmt: UrlFormat)
    requires forall x :: '&' !in fmt.escape(x)
    requires forall x: real :: '&' !in fmt.price(x)
    requires '&' !in sortField
    ensures var url := SortUrl(f, sortBy, sortDirection, sortField, fmt);
      var parts := Split(url[1..], '&');
      url[0] == '?' && parts == SortParams(f, sortBy, sortDirection, sortField, fmt) &&
      |parts| >= 3 + |f.selectedGenres| &&
      parts[|parts| - 3..] == [Param("SortBy", sortField), Param("SortDirection", NewDirection(sortBy, sortDirection, sortField)), "PageNumber=1"]
  {
    var lead := SearchParams(f, fmt) + GenreParams(f.selectedGenres, fmt.escape) + YearParams(f) + PriceParams(f, fmt) + DateParams(f);
    var tail := [Param("SortBy", sortField), Param("SortDirection", NewDirection(sortBy, sortDirection, sortField)), "PageNumber=1"];
    var params := SortParams(f, sortBy, sortDirection, sortField, fmt);
    assert params == lead + tail;
    SearchParamsAmpFree(f, fmt);
    GenreParamsAmpFree(f.selectedGenres, fmt.escape);
    YearParamsAmpFree(f);
    PriceParamsAmpFree(f, fmt);
    DateParamsAmpFree(f);
    assert AmpFree(lead);
    ParamAmpFree("SortBy", sortField);
    ParamAmpFree("SortDirection", NewDirection(sortBy, sortDirection, sortField));
    assert '&' !in "PageNumber=1";
    assert AmpFree(tail);
    assert AmpFree(params);
    SplitJoin(params, '&');
    var url := SortUrl(f, sortBy, sortDirection, sortField, fmt);
    assert url[1..] == Join("&", params);
    assert params[|params| - 3..] == tail;
  }

  /** The title and description searches and the author and publisher, each when set. */
  method AddSearchParams(queryParams: seq<string>, f: BookFilters, fmt: UrlFormat) returns (r: seq<string>)
    ensures r == queryParams + SearchParams(f, fmt)
  {
    r := queryParams;
    if Given(f.searchTitle) {
      r := r + [Param("SearchTitle", fmt.escape(f.searchTitle.value))];
    }
    if Given(f.searchDescription) {
      r := r + [Param("SearchDescription", fmt.escape(f.searchDescription.value))];
    }
    if AuthorGiven(f) {
      r := r + [Param("AuthorId", IntToString(f.authorId.value))];
    }
    if PublisherGiven(f) {
      r := r + [Param("PublisherId", IntToString(f.publisherId.value))];
    }
  }

  /** The `foreach` over the selected genres: one escaped parameter each, in order. */
  method AddGenreParams(queryParams: seq<string>, genres: seq<string>, escape: string -> string) returns (r: seq<string>)
    ensures r == queryParams + GenreParams(genres, escape)
  {
    r := queryParams;
    if |genres| > 0 {
      var i := 0;
      while i < |genres|
        invariant 0 <= i <= |genres|
        invariant r == queryParams + GenreParams(genres[..i], escape)
      {
        r := r + [Param("SelectedGenres", escape(genres[i]))];
        assert genres[..i + 1][..i] == genres[..i];
        i := i + 1;
      }
      assert genres[..i] == genres;
    }
  }

  method AddYearParams(queryParams: seq<string>, f: BookFilters) returns (r: seq<string>)
    ensures r == queryParams + YearParams(f)
  {
    r := queryParams;
    if f.minYear.Some? {
      r := r + [Param("MinYear", IntToString(f.minYear.value))];
    }
    if f.maxYear.Some? {
      r := r + [Param("MaxYear", IntToString(f.maxYear.value))];
    }
  }

  method AddPriceParams(queryParams: seq<string>, f: BookFilters, fmt: UrlFormat) returns (r: seq<string>)
    ensures r == queryParams + PriceParams(f, fmt)
  {
    r := queryParams;
    if f.minPrice.Some? {
      r := r + [Param("MinPrice", fmt.price(f.minPrice.value))];
    }
    if f.maxPrice.Some? {
      r := r + [Param("MaxPrice", fmt.price(f.maxPrice.value))];
    }
  }

  method AddDateParams(queryParams: seq<string>, f: BookFilters) returns (r: seq<string>)
    ensures r == queryParams + DateParams(f)
  {
    r := queryParams;
    if f.createdFromDate.Some? {
      r := r + [Param("CreatedFromDate", DateText(f.createdFromDate.value))];
    }
    if f.createdToDate.Some? {
      r := r + [Param("CreatedToDate", DateText(f.createdToDate.value))];
    }
  }
}
