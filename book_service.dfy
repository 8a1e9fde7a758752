// The public catalogue (Services/BookService.cs) and the home page that
// runs it (Pages/Index.cshtml.cs): the text, author and genre filters, the
// five sort orders, paging, the book cards, search suggestions, the lists
// behind the filter controls, the most-favourited books and the search log.
module BookService {
  import opened Seqs
  import opened Text
  import opened Entities
  import opened Schema
  import opened Store
  import opened Sorting
  import opened BookDetails
  import opened Favorites

  /** `SearchFilterDto`. */
  datatype SearchFilter = SearchFilter(
    searchQuery: Option<string>,
    authorIds: seq<int>,
    genres: seq<string>,
    sortBy: Option<string>,
    page: int,
    pageSize: int)

  /** `BookCardDto`. */
  datatype BookCard = BookCard(
    bookId: int,
    title: string,
    description: Option<string>,
    publishedYear: Option<int>,
    genre: Option<string>,
    price: Option<real>,
    urlImage: Option<string>,
    authorName: Option<string>,
    authorId: Option<int>,
    publisherName: Option<string>,
    averageRating: real,
    reviewCount: nat,
    favoriteCount: nat,
    isFavorited: bool,
    createdAt: Option<Time>,
    viewCount: int)

  /** `PaginatedResult<T>`. */
  datatype Paginated<T> = Paginated(items: seq<T>, totalCount: nat, page: int, pageSize: int)

  /**
   * A paged query answered by the database: the projections of the rows of
   * the requested page of `rows`, with the total and the paging echoed; no
   * answer when PostgreSQL rejects the negative offset or limit.
   */
  function Paginate<T, U>(rows: seq<T>, total: nat, page: int, pageSize: int, project: T -> U): Option<Paginated<U>>
  {
    var window := DbPage(rows, page, pageSize);
    if window.None? then None else Some(Paginated(Map(window.value, project), total, page, pageSize))
  }

  /** The page is answered unless its offset or size is negative, echoes the paging, and holds the projections of at most `pageSize` rows, none past the end. */
  lemma PaginateSpec<T, U>(rows: seq<T>, total: nat, page: int, pageSize: int, project: T -> U)
    ensures var r := Paginate(rows, total, page, pageSize, project);
      (r.Some? <==> Offset(page, pageSize) >= 0 && pageSize >= 0) &&
      (r.Some? ==>
        r.value.totalCount == total && r.value.page == page && r.value.pageSize == pageSize &&
        r.value.items == Map(PageOf(rows, page, pageSize), project) &&
        |r.value.items| <= pageSize &&
        (Offset(page, pageSize) >= |rows| ==> r.value.items == []))
  {
    DbPageSpec(rows, page, pageSize);
  }

  /** `SearchSuggestionDto`. */
  datatype Suggestion = Suggestion(
    bookId: int,
    title: string,
    authorName: Option<string>,
    urlImage: Option<string>,
    averageRating: real)

  // ---------------------------------------------------------------------------
  // Navigation properties and aggregates of one book

  /** `b.Author`: the author row the book refers to, if any. */
  function AuthorOf(t: Tables, b: Book): Option<Author>
  {
    if b.authorId.None? then None
    else
      var i := FindAuthor(t.authors, b.authorId.value);
      if i.None? then None else Some(t.authors[i.value])
  }

  /** `b.Author != null ? b.Author.AuthorName : null`. */
  function AuthorNameOf(t: Tables, b: Book): Option<string>
  {
    var a := AuthorOf(t, b);
    if a.Some? then Some(a.value.authorName) else None
  }

  /** `b.Publisher != null ? b.Publisher.PublisherName : null`. */
  function PublisherNameOf(t: Tables, b: Book): Option<string>
  {
    if b.publisherId.None? then None
    else
      var i := FindPublisher(t.publishers, b.publisherId.value);
      if i.None? then None else Some(t.publishers[i.value].publisherName)
  }

  /** `b.FavoriteBooks.Count`. */
  function FavoriteCount(t: Tables, bookId: int): nat
  {
    Count(t.favorites, (f: FavoriteBook) => f.bookId == bookId)
  }

  /** `b.Reviews.Count(r => r.ParentReviewId == null)`. */
  function TopLevelReviewCount(t: Tables, bookId: int): nat
  {
    Count(t.reviews, (r: Review) => r.bookId == bookId && r.parentReviewId.None?)
  }

  function ReplyCount(t: Tables, bookId: int): nat
  {
    Count(t.reviews, (r: Review) => r.bookId == bookId && r.parentReviewId.Some?)
  }

  /** Average of the ratings of the book's top-level reviews, `?? 0`. */
  function BookAverage(t: Tables, bookId: int): real
  {
    AverageRating(Ratings(t.reviews, bookId))
  }

  /** `currentUserId.HasValue && b.FavoriteBooks.Any(f => f.UserId == currentUserId.Value)`. */
  predicate FavoritedBy(t: Tables, bookId: int, userId: Option<int>)
  {
    userId.Some? && Any(t.favorites, (f: FavoriteBook) => f.bookId == bookId && f.userId == userId.value)
  }

  /** The card of one book in the catalogue grid. */
  function Card(t: Tables, b: Book, userId: Option<int>): BookCard
  {
    BookCard(b.bookId, b.title, b.description, b.publishedYear, b.genre, b.price, b.urlImage,
      AuthorNameOf(t, b), None, PublisherNameOf(t, b),
      BookAverage(t, b.bookId), TopLevelReviewCount(t, b.bookId), FavoriteCount(t, b.bookId),
      FavoritedBy(t, b.bookId, userId), None, 0)
  }

  // ---------------------------------------------------------------------------
  // Filters

  /** The lower-cased title, or the lower-cased name of the book's author, contains `needle`. */
  predicate MatchesText(t: Tables, b: Book, needle: string)
  {
    Contains(ToLower(b.title), needle) ||
    (AuthorOf(t, b).Some? && Contains(ToLower(AuthorOf(t, b).value.authorName), needle))
  }

  predicate MatchesAuthors(b: Book, authorIds: seq<int>)
  {
    b.authorId.Some? && b.authorId.value in authorIds
  }

  predicate MatchesGenres(b: Book, genres: seq<string>)
  {
    !IsNullOrEmpty(b.genre) && b.genre.value in genres
  }

  /** The text filter as a `Where` predicate: blank text lets every book through. */
  function TextPass(t: Tables, f: SearchFilter): Book -> bool
  {
    (b: Book) => IsNullOrWhiteSpace(f.searchQuery) || MatchesText(t, b, ToLower(f.searchQuery.value))
  }

  function AuthorsPass(f: SearchFilter): Book -> bool
  {
    (b: Book) => |f.authorIds| == 0 || MatchesAuthors(b, f.authorIds)
  }

  function GenresPass(f: SearchFilter): Book -> bool
  {
    (b: Book) => |f.genres| == 0 || MatchesGenres(b, f.genres)
  }

  /** Whether a book passes every filter the request switches on. */
  predicate MatchesFilter(t: Tables, f: SearchFilter, b: Book)
  {
    TextPass(t, f)(b) && AuthorsPass(f)(b) && GenresPass(f)(b)
  }

  function FilterPass(t: Tables, f: SearchFilter): Book -> bool
  {
    (b: Book) => MatchesFilter(t, f, b)
  }

  function TextStage(t: Tables, f: SearchFilter): seq<Book>
  {
    if IsNullOrWhiteSpace(f.searchQuery) then t.books
    else
      var needle := ToLower(f.searchQuery.value);
      Filter(t.books, (b: Book) => MatchesText(t, b, needle))
  }

  function AuthorsStage(q: seq<Book>, f: SearchFilter): seq<Book>
  {
    if |f.authorIds| == 0 then q else Filter(q, (b: Book) => MatchesAuthors(b, f.authorIds))
  }

  function GenresStage(q: seq<Book>, f: SearchFilter): seq<Book>
  {
    if |f.genres| == 0 then q else Filter(q, (b: Book) => MatchesGenres(b, f.genres))
  }

  /** The query as `GetBooksAsync` builds it: one `Where` per filter that is switched on. */
  function FilterBooks(t: Tables, f: SearchFilter): seq<Book>
  {
    GenresStage(AuthorsStage(TextStage(t, f), f), f)
  }

  lemma TextStageSpec(t: Tables, f: SearchFilter)
    ensures TextStage(t, f) == Filter(t.books, TextPass(t, f))
  {
    if IsNullOrWhiteSpace(f.searchQuery) {
      FilterAll(t.books, TextPass(t, f));
    } else {
      var needle := ToLower(f.searchQuery.value);
      FilterCongruent(t.books, (b: Book) => MatchesText(t, b, needle), TextPass(t, f));
    }
  }

  lemma AuthorsStageSpec(q: seq<Book>, f: SearchFilter)
    ensures AuthorsStage(q, f) == Filter(q, AuthorsPass(f))
  {
    if |f.authorIds| == 0 {
      FilterAll(q, AuthorsPass(f));
    } else {
      FilterCongruent(q, (b: Book) => MatchesAuthors(b, f.authorIds), AuthorsPass(f));
    }
  }

  lemma GenresStageSpec(q: seq<Book>, f: SearchFilter)
    ensures GenresStage(q, f) == Filter(q, GenresPass(f))
  {
    if |f.genres| == 0 {
      FilterAll(q, GenresPass(f));
    } else {
      FilterCongruent(q, (b: Book) => MatchesGenres(b, f.genres), GenresPass(f));
    }
  }

  function TextAuthorsPass(t: Tables, f: SearchFilter): Book -> bool
  {
    (b: Book) => TextPass(t, f)(b) && AuthorsPass(f)(b)
  }

  /** The chain of `Where` calls is one filter by the conjunction of the switched-on conditions, in table order. */
  lemma FilterBooksIsFilter(t: Tables, f: SearchFilter)
    ensures FilterBooks(t, f) == Filter(t.books, FilterPass(t, f))
  {
    var q1 := TextStage(t, f);
    TextStageSpec(t, f);
    AuthorsStageSpec(q1, f);
    GenresStageSpec(AuthorsStage(q1, f), f);
    FilterFilterAs(t.books, TextPass(t, f), AuthorsPass(f), TextAuthorsPass(t, f));
    FilterFilterAs(t.books, TextAuthorsPass(t, f), GenresPass(f), FilterPass(t, f));
  }

  /** A book is listed exactly when it is in the catalogue and matches every filter given; with no filter, every book is listed. */
  lemma FilterBooksSpec(t: Tables, f: SearchFilter)
    ensures forall b :: b in FilterBooks(t, f) <==> b in t.books && MatchesFilter(t, f, b)
    ensures IsNullOrWhiteSpace(f.searchQuery) && |f.authorIds| == 0 && |f.genres| == 0 ==>
      FilterBooks(t, f) == t.books
  {
    FilterBooksIsFilter(t, f);
    if IsNullOrWhiteSpace(f.searchQuery) && |f.authorIds| == 0 && |f.genres| == 0 {
      FilterAll(t.books, FilterPass(t, f));
    }
  }

  // ---------------------------------------------------------------------------
  // Sort orders

  datatype BookOrder = Oldest | ByTitle | ByRating | ByFavorites | Newest

  /** `filter.SortBy?.ToLower() switch { ... }`: anything unrecognised, null included, is "newest". */
  function ParseBookOrder(sortBy: Option<string>): BookOrder
  {
    if sortBy.None? then Newest
    else
      var s := ToLower(sortBy.value);
      if s == "oldest" then Oldest
      else if s == "title" then ByTitle
      else if s == "rating" then ByRating
      else if s == "favorites" then ByFavorites
      else Newest
  }

  /** The column each order sorts on; a null creation time sorts as PostgreSQL's largest value. */
  function OrderKey(t: Tables, o: BookOrder): Book -> Key
  {
    match o
    case Oldest => (b: Book) => TimeKey(b.createdAt, true)
    case ByTitle => (b: Book) => [Str(b.title)]
    case ByRating => (b: Book) => [Num(BookAverage(t, b.bookId))]
    case ByFavorites => (b: Book) => [IntAtom(FavoriteCount(t, b.bookId))]
    case Newest => (b: Book) => TimeKey(b.createdAt, true)
  }

  /** "rating", "favorites" and "newest" sort descending; "oldest" and "title" ascending. */
  function OrderDescending(o: BookOrder): bool
  {
    o.ByRating? || o.ByFavorites? || o.Newest?
  }

  /** Lower-casing makes the order names case-insensitive, and only the four names leave the default. */
  lemma ParseBookOrderSpec(sortBy: string)
    ensures ParseBookOrder(Some(sortBy)) == ParseBookOrder(Some(ToLower(sortBy)))
    ensures ParseBookOrder(Some(sortBy)) != Newest <==>
      ToLower(sortBy) in {"oldest", "title", "rating", "favorites"}
  {
    ToLowerIdempotent(sortBy);
  }

  /** The page's default order, "newest", sorts by creation time, latest first. */
  lemma DefaultOrderIsNewest()
    ensures ParseBookOrder(Some(DefaultSortBy)) == Newest && OrderDescending(Newest)
  {
  }

  // ---------------------------------------------------------------------------
  // GetBooksAsync

  function SortedBooks(t: Tables, f: SearchFilter): seq<Book>
  {
    var o := ParseBookOrder(f.sortBy);
    SortBy(FilterBooks(t, f), OrderKey(t, o), OrderDescending(o))
  }

  /** The books of the requested page, in display order. */
  function PageBooks(t: Tables, f: SearchFilter): seq<Book>
  {
    PageOf(SortedBooks(t, f), f.page, f.pageSize)
  }

  /** The card projection of the catalogue query, for one viewer. */
  function CardOf(t: Tables, userId: Option<int>): Book -> BookCard
  {
    (b: Book) => Card(t, b, userId)
  }

  /** One catalogue page, or nothing when PostgreSQL rejects the negative offset or limit. */
  function GetBooks(t: Tables, f: SearchFilter, userId: Option<int>): (r: Option<Paginated<BookCard>>)
    ensures r.Some? <==> Offset(f.page, f.pageSize) >= 0 && f.pageSize >= 0
    ensures r.Some? ==> r.value.totalCount == Count(t.books, FilterPass(t, f)) && |r.value.items| <= f.pageSize
  {
    FilterBooksIsFilter(t, f);
    PaginateSpec(SortedBooks(t, f), |FilterBooks(t, f)|, f.page, f.pageSize, CardOf(t, userId));
    Paginate(SortedBooks(t, f), |FilterBooks(t, f)|, f.page, f.pageSize, CardOf(t, userId))
  }

  /**
   * The page is answered unless its offset or size is negative. The total
   * counts every book that passes the filters, whatever page is asked for;
   * the page holds at most `pageSize` cards, the cards of matching books in
   * the requested order, and a page past the end is empty.
   */
  lemma GetBooksSpec(t: Tables, f: SearchFilter, userId: Option<int>)
    ensures var r := GetBooks(t, f, userId);
      (r.Some? <==> Offset(f.page, f.pageSize) >= 0 && f.pageSize >= 0) &&
      (r.Some? ==>
        r.value.totalCount == Count(t.books, FilterPass(t, f)) &&
        r.value.page == f.page && r.value.pageSize == f.pageSize &&
        r.value.items == Map(PageBooks(t, f), CardOf(t, userId)) &&
        |r.value.items| <= f.pageSize &&
        (Offset(f.page, f.pageSize) >= r.value.totalCount ==> r.value.items == []))
  {
    var sorted := SortedBooks(t, f);
    var total := |FilterBooks(t, f)|;
    assert GetBooks(t, f, userId) == Paginate(sorted, total, f.page, f.pageSize, CardOf(t, userId));
    PaginateSpec(sorted, total, f.page, f.pageSize, CardOf(t, userId));
    FilterBooksIsFilter(t, f);
    assert total == Count(t.books, FilterPass(t, f));
    assert |sorted| == total;
    assert PageBooks(t, f) == PageOf(sorted, f.page, f.pageSize);
  }

  /** The books of a page are in the requested order, and each of them passes the filters. */
  lemma PageBooksSpec(t: Tables, f: SearchFilter)
    ensures var o := ParseBookOrder(f.sortBy);
      Sorted(PageBooks(t, f), OrderKey(t, o), OrderDescending(o)) &&
      forall b :: b in PageBooks(t, f) ==> b in t.books && MatchesFilter(t, f, b)
  {
    FilterBooksSpec(t, f);
    var o := ParseBookOrder(f.sortBy);
    var filtered := FilterBooks(t, f);
    SortBySorted(filtered, OrderKey(t, o), OrderDescending(o));
    SortByMembers(filtered, OrderKey(t, o), OrderDescending(o));
    PageSorted(SortedBooks(t, f), OrderKey(t, o), OrderDescending(o), f.page, f.pageSize);
  }

  /** A card reports the book's own columns; its review count leaves the replies out, and it is marked as a favourite exactly when the signed-in user has the book among their favourites. */
  lemma CardSpec(t: Tables, b: Book, userId: Option<int>)
    ensures var c := Card(t, b, userId);
      c.bookId == b.bookId && c.title == b.title && c.genre == b.genre && c.price == b.price &&
      c.reviewCount + ReplyCount(t, b.bookId) == Count(t.reviews, (r: Review) => r.bookId == b.bookId) &&
      (c.isFavorited <==> userId.Some? && IsFavorite(t, userId.value, b.bookId)) &&
      (c.authorName.Some? <==> b.authorId.Some? && b.authorId.value in AuthorIds(t.authors))
  {
    ReviewCountSplit(t.reviews, b.bookId);
    FavoritedIsFavorite(t, b.bookId, userId);
  }

  /** Every review of a book is either top-level or a reply. */
  lemma {:induction false} ReviewCountSplit(reviews: seq<Review>, bookId: int)
    ensures Count(reviews, (r: Review) => r.bookId == bookId && r.parentReviewId.None?) +
      Count(reviews, (r: Review) => r.bookId == bookId && r.parentReviewId.Some?) ==
      Count(reviews, (r: Review) => r.bookId == bookId)
  {
    if reviews != [] {
      ReviewCountSplit(reviews[1..], bookId);
    }
  }

  lemma FavoritedIsFavorite(t: Tables, bookId: int, userId: Option<int>)
    ensures FavoritedBy(t, bookId, userId) <==> userId.Some? && IsFavorite(t, userId.value, bookId)
  {
    if userId.Some? {
      var u := userId.value;
      if IsFavorite(t, u, bookId) {
        var f :| f in t.favorites && (f.userId, f.bookId) == (u, bookId);
        var i :| 0 <= i < |t.favorites| && t.favorites[i] == f;
        assert t.favorites[i].bookId == bookId && t.favorites[i].userId == u;
      }
      if FavoritedBy(t, bookId, userId) {
        var i :| 0 <= i < |t.favorites| && t.favorites[i].bookId == bookId && t.favorites[i].userId == u;
        assert t.favorites[i] in t.favorites;
      }
    }
  }

  // ---------------------------------------------------------------------------
  // GetSearchSuggestionsAsync

  function ViewKey(b: Book): Key
  {
    OptIntKey(b.viewCount, true)
  }

  /** Books matching the typed text, most viewed first, at most `limit` of them. */
  function SuggestedBooks(t: Tables, query: string, limit: int): seq<Book>
  {
    var needle := ToLower(query);
    Take(SortBy(Filter(t.books, (b: Book) => MatchesText(t, b, needle)), ViewKey, true), limit)
  }

  function SuggestionOf(t: Tables, b: Book): Suggestion
  {
    Suggestion(b.bookId, b.title, AuthorNameOf(t, b), b.urlImage, BookAverage(t, b.bookId))
  }

  /** Blank text answers an empty list without querying; a negative limit is rejected by the database. */
  function Suggestions(t: Tables, query: Option<string>, limit: int): Option<seq<Suggestion>>
  {
    if IsNullOrWhiteSpace(query) then Some([])
    else if limit < 0 then None
    else Some(Map(SuggestedBooks(t, query.value, limit), (b: Book) => SuggestionOf(t, b)))
  }

  /**
   * Blank text suggests nothing; otherwise at most `limit` suggestions, each
   * for a book whose title or author name contains the text, the most viewed
   * first (a book with no view count counted as most viewed, as PostgreSQL
   * sorts nulls first when descending).
   */
  lemma SuggestionsSpec(t: Tables, query: Option<string>, limit: int)
    ensures IsNullOrWhiteSpace(query) ==> Suggestions(t, query, limit) == Some([])
    ensures Suggestions(t, query, limit).None? <==> !IsNullOrWhiteSpace(query) && limit < 0
    ensures !IsNullOrWhiteSpace(query) && limit >= 0 ==>
      var books := SuggestedBooks(t, query.value, limit);
      Suggestions(t, query, limit) == Some(Map(books, (b: Book) => SuggestionOf(t, b))) &&
      |books| <= limit &&
      Sorted(books, ViewKey, true) &&
      forall b :: b in books ==> b in t.books && MatchesText(t, b, ToLower(query.value))
  {
    if !IsNullOrWhiteSpace(query) && limit >= 0 {
      var needle := ToLower(query.value);
      var matches := Filter(t.books, (b: Book) => MatchesText(t, b, needle));
      var sorted := SortBy(matches, ViewKey, true);
      SortBySorted(matches, ViewKey, true);
      SortByMembers(matches, ViewKey, true);
      SortedSlice(sorted, ViewKey, true, 0, if limit <= |sorted| then limit else |sorted|);
      assert forall b :: b in Take(sorted, limit) ==> b in sorted;
    }
  }

  // ---------------------------------------------------------------------------
  // GetAuthorsAsync and GetGenresAsync: the filter controls

  predicate HasBooks(t: Tables, a: Author)
  {
    Any(t.books, (b: Book) => b.authorId == Some(a.authorId))
  }

  function NameKey(a: Author): Key
  {
    [Str(a.authorName)]
  }

  /** Authors with at least one book, by name. */
  function AuthorsWithBooks(t: Tables): seq<Author>
  {
    SortBy(Filter(t.authors, (a: Author) => HasBooks(t, a)), NameKey, false)
  }

  lemma AuthorsWithBooksSpec(t: Tables)
    ensures Sorted(AuthorsWithBooks(t), NameKey, false)
    ensures forall a :: a in AuthorsWithBooks(t) <==>
      a in t.authors && exists b :: b in t.books && b.authorId == Some(a.authorId)
  {
    var s := Filter(t.authors, (a: Author) => HasBooks(t, a));
    SortBySorted(s, NameKey, false);
    SortByMembers(s, NameKey, false);
    forall a | a in t.authors
      ensures HasBooks(t, a) <==> exists b :: b in t.books && b.authorId == Some(a.authorId)
    {
      if HasBooks(t, a) {
        var i :| 0 <= i < |t.books| && t.books[i].authorId == Some(a.authorId);
        assert t.books[i] in t.books;
      }
      if exists b :: b in t.books && b.authorId == Some(a.authorId) {
        var b :| b in t.books && b.authorId == Some(a.authorId);
        var i :| 0 <= i < |t.books| && t.books[i] == b;
        assert t.books[i].authorId == Some(a.authorId);
      }
    }
  }

  function GenreOf(b: Book): string
  {
    if b.genre.Some? then b.genre.value else ""
  }

  function GenreKey(g: string): Key
  {
    [Str(g)]
  }

  /** Every non-empty genre in use, once each, in order. */
  function Genres(t: Tables): seq<string>
  {
    SortBy(Distinct(GenreNames(t)), GenreKey, false)
  }

  /** The genres named by the books: the non-empty ones, with repeats. */
  function GenreNames(t: Tables): seq<string>
  {
    Map(Filter(t.books, (b: Book) => !IsNullOrEmpty(b.genre)), GenreOf)
  }

  /** The genre names are exactly the non-empty genres of the books. */
  lemma GenreNamesSpec(t: Tables)
    ensures forall g :: g in GenreNames(t) <==> g != [] && exists b :: b in t.books && b.genre == Some(g)
  {
    var named := Filter(t.books, (b: Book) => !IsNullOrEmpty(b.genre));
    var names := GenreNames(t);
    forall g
      ensures g in names <==> g != [] && exists b :: b in t.books && b.genre == Some(g)
    {
      if g in names {
        var k :| 0 <= k < |names| && names[k] == g;
        assert named[k] in named;
      }
      if g != [] && exists b :: b in t.books && b.genre == Some(g) {
        var b :| b in t.books && b.genre == Some(g);
        assert b in named;
        var k :| 0 <= k < |named| && named[k] == b;
        assert names[k] == g;
      }
    }
  }


  /** The genre list holds exactly the non-empty genres of the books. */
  lemma GenresMembers(t: Tables)
    ensures forall g :: g in Genres(t) <==> g != [] && exists b :: b in t.books && b.genre == Some(g)
  {
    GenreNamesSpec(t);
    SortByMembers(Distinct(GenreNames(t)), GenreKey, false);
  }

  /** The genre list names each genre once, in strictly increasing order. */
  lemma GenresSpec(t: Tables)
    ensures NoDup(Genres(t))
    ensures forall i, j :: 0 <= i < j < |Genres(t)| ==> StrLt(Genres(t)[i], Genres(t)[j])
  {
    var d := Distinct(GenreNames(t));
    var r := SortBy(d, GenreKey, false);
    SortBySorted(d, GenreKey, false);
    SortByNoDup(d, GenreKey, false);
    SortedStrict(r, GenreKey, false);
    forall i, j | 0 <= i < j < |r|
      ensures StrLt(r[i], r[j])
    {
      assert KeyLt(GenreKey(r[i]), GenreKey(r[j]));
      assert GenreKey(r[i])[1..] == [] && GenreKey(r[j])[1..] == [];
    }
  }

  // ---------------------------------------------------------------------------
  // GetTopFavoriteBooksAsync

  /** The placeholder shown for a missing author or publisher ("unknown"). */
  const Unknown: string := "Kh\U{00F4}ng r\U{00F5}"

  /** Favourite count, then view count, both descending (a null view count first, as in PostgreSQL). */
  function TopKey(t: Tables): Book -> Key
  {
    (b: Book) => [IntAtom(FavoriteCount(t, b.bookId))] + ViewKey(b)
  }

  /** Books with at least one favourite, most favourited first, at most `limit` of them. */
  function TopFavoriteBooks(t: Tables, limit: int): seq<Book>
  {
    Take(SortBy(Filter(t.books, (b: Book) => FavoriteCount(t, b.bookId) > 0), TopKey(t), true), limit)
  }

  function TopCard(t: Tables, b: Book, userId: Option<int>): BookCard
  {
    var author := AuthorNameOf(t, b);
    var publisher := PublisherNameOf(t, b);
    BookCard(b.bookId, b.title, None, None, b.genre, b.price, b.urlImage,
      Some(if author.Some? then author.value else Unknown), b.authorId,
      Some(if publisher.Some? then publisher.value else Unknown),
      BookAverage(t, b.bookId), TopLevelReviewCount(t, b.bookId), FavoriteCount(t, b.bookId),
      FavoritedBy(t, b.bookId, userId), b.createdAt, OrZero(b.viewCount))
  }

  function TopFavorites(t: Tables, limit: int, userId: Option<int>): Option<seq<BookCard>>
  {
    if limit < 0 then None else Some(Map(TopFavoriteBooks(t, limit), (b: Book) => TopCard(t, b, userId)))
  }

  /**
   * At most `limit` books, each favourited at least once, ordered by
   * favourite count and then view count, both descending.
   */
  lemma TopFavoriteBooksSpec(t: Tables, limit: int)
    ensures var books := TopFavoriteBooks(t, limit);
      (limit >= 0 ==> |books| <= limit) &&
      Sorted(books, TopKey(t), true) &&
      forall b :: b in books ==> b in t.books && FavoriteCount(t, b.bookId) >= 1
  {
    var p := (b: Book) => FavoriteCount(t, b.bookId) > 0;
    var matches := Filter(t.books, p);
    var sorted := SortBy(matches, TopKey(t), true);
    SortBySorted(matches, TopKey(t), true);
    SortByMembers(matches, TopKey(t), true);
    var n := if limit <= 0 then 0 else if limit <= |sorted| then limit else |sorted|;
    SortedSlice(sorted, TopKey(t), true, 0, n);
    assert TopFavoriteBooks(t, limit) == sorted[..n];
    assert forall b :: b in sorted[..n] ==> b in sorted;
  }

  /** A favourite count of at least one means some user has the book among their favourites. */
  lemma FavoriteCountPositive(t: Tables, bookId: int)
    ensures FavoriteCount(t, bookId) >= 1 <==> exists u :: IsFavorite(t, u, bookId)
  {
    var p := (f: FavoriteBook) => f.bookId == bookId;
    CountPositive(t.favorites, p);
    if Any(t.favorites, p) {
      var i :| 0 <= i < |t.favorites| && p(t.favorites[i]);
      assert t.favorites[i] in t.favorites;
      assert IsFavorite(t, t.favorites[i].userId, bookId);
    }
    if exists u :: IsFavorite(t, u, bookId) {
      var u :| IsFavorite(t, u, bookId);
      var f :| f in t.favorites && (f.userId, f.bookId) == (u, bookId);
      var i :| 0 <= i < |t.favorites| && t.favorites[i] == f;
      assert p(t.favorites[i]);
    }
  }

  /** The list is refused only for a negative limit; every card names an author and a publisher, the placeholder standing in for a missing one. */
  lemma TopFavoritesSpec(t: Tables, limit: int, userId: Option<int>)
    ensures TopFavorites(t, limit, userId).None? <==> limit < 0
    ensures limit >= 0 ==>
      var books := TopFavoriteBooks(t, limit);
      var cards := TopFavorites(t, limit, userId).value;
      |cards| == |books| &&
      forall i :: 0 <= i < |cards| ==>
        cards[i].bookId == books[i].bookId && cards[i].favoriteCount >= 1 &&
        cards[i].authorName.Some? && cards[i].publisherName.Some? &&
        (AuthorOf(t, books[i]).None? ==> cards[i].authorName == Some(Unknown)) &&
        (cards[i].isFavorited <==> userId.Some? && IsFavorite(t, userId.value, books[i].bookId))
  {
    if limit >= 0 {
      var books := TopFavoriteBooks(t, limit);
      TopFavoriteBooksSpec(t, limit);
      forall i | 0 <= i < |books|
        ensures FavoriteCount(t, books[i].bookId) >= 1
        ensures FavoritedBy(t, books[i].bookId, userId) <==> userId.Some? && IsFavorite(t, userId.value, books[i].bookId)
      {
        assert books[i] in books;
        FavoritedIsFavorite(t, books[i].bookId, userId);
      }
    }
  }

  // ---------------------------------------------------------------------------
  // LogSearchAsync

  datatype LogOutcome =
    | Logged
    | LogFailed     // SaveChanges rejects a log naming a user that does not exist

  /** The state after logging one search, stamped `now`. */
  function LogSearchSpec(t: Tables, searchText: string, userId: Option<int>, now: Time): (Tables, LogOutcome)
  {
    if userId.Some? && userId.value !in UserIds(t.users) then (t, LogFailed)
    else
      (t.(searchLogs := t.searchLogs + [SearchLog(t.nextId, userId, searchText, Some(now))], nextId := t.nextId + 1),
       Logged)
  }

  /** Records one search with its text, its user (none when anonymous) and the time. */
  method LogSearch(ctx: Context, searchText: string, userId: Option<int>, now: Time) returns (res: LogOutcome)
    requires ctx.Valid()
    modifies ctx
    ensures (ctx.Db(), res) == LogSearchSpec(old(ctx.Db()), searchText, userId, now)
    ensures ctx.Valid()
  {
    LogSearchKeepsValid(ctx.Db(), searchText, userId, now);
    if userId.Some? && userId.value !in UserIds(ctx.users) {
      return LogFailed;
    }
    var id := ctx.NewId();
    ctx.searchLogs := ctx.searchLogs + [SearchLog(id, userId, searchText, Some(now))];
    res := Logged;
  }

  lemma LogSearchKeepsValid(t: Tables, searchText: string, userId: Option<int>, now: Time)
    requires Valid(t)
    ensures Valid(LogSearchSpec(t, searchText, userId, now).0)
  {
    if !(userId.Some? && userId.value !in UserIds(t.users)) {
      InsertSearchLogKeepsValid(t, SearchLog(t.nextId, userId, searchText, Some(now)));
    }
  }

  /** A logged search adds exactly one row, under a new id, to the search log, and leaves every other table alone. */
  lemma LogSearchAddsOne(t: Tables, searchText: string, userId: Option<int>, now: Time)
    requires Valid(t)
    ensures var (t', res) := LogSearchSpec(t, searchText, userId, now);
      (res == Logged <==> userId.None? || userId.value in UserIds(t.users)) &&
      (res == Logged ==>
        |t'.searchLogs| == |t.searchLogs| + 1 &&
        t'.searchLogs[..|t.searchLogs|] == t.searchLogs &&
        t'.searchLogs[|t.searchLogs|].searchText == searchText &&
        t'.searchLogs[|t.searchLogs|].userId == userId &&
        (forall l :: l in t.searchLogs ==> l.logId != t'.searchLogs[|t.searchLogs|].logId) &&
        t' == t.(searchLogs := t'.searchLogs, nextId := t'.nextId)) &&
      (res == LogFailed ==> t' == t)
  {
  }

  // ---------------------------------------------------------------------------
  // The home page (IndexModel.OnGetAsync)

  const HomePageSize: int := 12
  const DefaultSortBy: string := "newest"
  const DefaultPage: int := 1

  /** What the home page renders. */
  datatype HomePage = HomePage(books: Paginated<BookCard>, authors: seq<Author>, genres: seq<string>)

  function HomeFilter(searchQuery: Option<string>, authorIds: seq<int>, genres: seq<string>,
                      sortBy: Option<string>, currentPage: int): SearchFilter
  {
    SearchFilter(searchQuery, authorIds, genres, sortBy, currentPage, HomePageSize)
  }

  /** The data the home page renders, before any search is logged: none when the book query fails. */
  function HomeData(t: Tables, caller: Caller, searchQuery: Option<string>, authorIds: seq<int>,
                    genres: seq<string>, sortBy: Option<string>, currentPage: int): Option<HomePage>
  {
    var books := GetBooks(t, HomeFilter(searchQuery, authorIds, genres, sortBy, currentPage), CallerId(caller));
    if books.None? then None else Some(HomePage(books.value, AuthorsWithBooks(t), Genres(t)))
  }

  /**
   * The state after one home page request and the page it renders: none
   * when the book query or the search log fails, since the request then ends
   * in an error.
   */
  function HomeSpec(t: Tables, caller: Caller, searchQuery: Option<string>, authorIds: seq<int>,
                    genres: seq<string>, sortBy: Option<string>, currentPage: int, now: Time): (Tables, Option<HomePage>)
  {
    HomeStep(t, HomeData(t, caller, searchQuery, authorIds, genres, sortBy, currentPage), searchQuery, CallerId(caller), now)
  }

  /** After the page data is loaded: log a non-blank search, and fail the request if the log cannot be saved. */
  function HomeStep(t: Tables, data: Option<HomePage>, searchQuery: Option<string>, userId: Option<int>, now: Time): (Tables, Option<HomePage>)
  {
    if data.None? || IsNullOrWhiteSpace(searchQuery) then (t, data)
    else
      var logged := LogSearchSpec(t, searchQuery.value, userId, now);
      if logged.1 == LogFailed then (t, None) else (logged.0, data)
  }

  /** LoadFilterDataAsync and LoadBooksAsync: the author and genre lists, then one page of twelve books. */
  method LoadHomeData(ctx: Context, caller: Caller, searchQuery: Option<string>, authorIds: seq<int>,
                      genres: seq<string>, sortBy: Option<string>, currentPage: int)
    returns (data: Option<HomePage>)
    ensures data == HomeData(ctx.Db(), caller, searchQuery, authorIds, genres, sortBy, currentPage)
  {
    var authors := AuthorsWithBooks(ctx.Db());
    var genreList := Genres(ctx.Db());
    var filter := HomeFilter(searchQuery, authorIds, genres, sortBy, currentPage);
    var books := GetBooks(ctx.Db(), filter, CallerId(caller));
    if books.None? {
      return None;
    }
    data := Some(HomePage(books.value, authors, genreList));
  }

  /** OnGetAsync: loads the page data, then logs the search if the text is not blank. */
  method HomeGet(ctx: Context, caller: Caller, searchQuery: Option<string>, authorIds: seq<int>,
                 genres: seq<string>, sortBy: Option<string>, currentPage: int, now: Time)
    returns (page: Option<HomePage>)
    requires ctx.Valid()
    modifies ctx
    ensures (ctx.Db(), page) == HomeSpec(old(ctx.Db()), caller, searchQuery, authorIds, genres, sortBy, currentPage, now)
    ensures ctx.Valid()
  {
    ghost var t := ctx.Db();
    page := LoadHomeData(ctx, caller, searchQuery, authorIds, genres, sortBy, currentPage);
    HomeStepCases(t, page, searchQuery, CallerId(caller), now);
    if page.Some? && !IsNullOrWhiteSpace(searchQuery) {
      var res := LogSearch(ctx, searchQuery.value, CallerId(caller), now);
      if res == LogFailed {
        page := None;
      }
    }
  }

  lemma HomeStepCases(t: Tables, data: Option<HomePage>, searchQuery: Option<string>, userId: Option<int>, now: Time)
    ensures data.None? || IsNullOrWhiteSpace(searchQuery) ==> HomeStep(t, data, searchQuery, userId, now) == (t, data)
    ensures data.Some? && !IsNullOrWhiteSpace(searchQuery) ==>
      var logged := LogSearchSpec(t, searchQuery.value, userId, now);
      HomeStep(t, data, searchQuery, userId, now) == (logged.0, if logged.1 == LogFailed then None else data)
  {
  }

  /** The home page changes the database only by logging a non-blank search. */
  lemma HomeWritesOnlyTheLog(t: Tables, caller: Caller, searchQuery: Option<string>, authorIds: seq<int>,
                             genres: seq<string>, sortBy: Option<string>, currentPage: int, now: Time)
    ensures var t' := HomeSpec(t, caller, searchQuery, authorIds, genres, sortBy, currentPage, now).0;
      (t' != t ==> !IsNullOrWhiteSpace(searchQuery) && t' == LogSearchSpec(t, searchQuery.value, CallerId(caller), now).0) &&
      (IsNullOrWhiteSpace(searchQuery) ==> t' == t)
  {
    HomeStepCases(t, HomeData(t, caller, searchQuery, authorIds, genres, sortBy, currentPage), searchQuery, CallerId(caller), now);
  }

  /** The page data is loaded exactly when the page number is at least 1. */
  lemma HomeDataSpec(t: Tables, caller: Caller, searchQuery: Option<string>, authorIds: seq<int>,
                     genres: seq<string>, sortBy: Option<string>, currentPage: int)
    ensures HomeData(t, caller, searchQuery, authorIds, genres, sortBy, currentPage).Some? <==> currentPage >= 1
  {
    GetBooksSpec(t, HomeFilter(searchQuery, authorIds, genres, sortBy, currentPage), CallerId(caller));
    OffsetIsProduct(currentPage, HomePageSize);
  }

  /**
   * The page renders exactly when the page number is at least 1 and the
   * search, if logged, names an existing user or none.
   */
  lemma HomePageSpec(t: Tables, caller: Caller, searchQuery: Option<string>, authorIds: seq<int>,
                     genres: seq<string>, sortBy: Option<string>, currentPage: int, now: Time)
    ensures var page := HomeSpec(t, caller, searchQuery, authorIds, genres, sortBy, currentPage, now).1;
      (page.Some? <==>
        currentPage >= 1 &&
        (IsNullOrWhiteSpace(searchQuery) || CallerId(caller).None? || CallerId(caller).value in UserIds(t.users)))
  {
    HomeDataSpec(t, caller, searchQuery, authorIds, genres, sortBy, currentPage);
    HomeStepCases(t, HomeData(t, caller, searchQuery, authorIds, genres, sortBy, currentPage), searchQuery, CallerId(caller), now);
  }

  /** A rendered home page shows at most 12 books, and its total counts every matching book. */
  lemma HomePageSize12(t: Tables, caller: Caller, searchQuery: Option<string>, authorIds: seq<int>,
                       genres: seq<string>, sortBy: Option<string>, currentPage: int)
    ensures var f := HomeFilter(searchQuery, authorIds, genres, sortBy, currentPage);
      var books := GetBooks(t, f, CallerId(caller));
      books.Some? ==> |books.value.items| <= HomePageSize && books.value.totalCount == Count(t.books, FilterPass(t, f))
  {
    GetBooksSpec(t, HomeFilter(searchQuery, authorIds, genres, sortBy, currentPage), CallerId(caller));
  }
}
