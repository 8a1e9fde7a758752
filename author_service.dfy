// Services/AuthorService.cs: an author's books a page at a time, the list
// of authors by name, and the statistics of one author's catalogue.
module AuthorService {
  import opened Seqs
  import opened Text
  import opened Entities
  import opened Schema
  import opened Sorting
  import opened Grouping
  import opened BookDetails
  import opened Favorites
  import opened BookService

  // ---------------------------------------------------------------------------
  // GetAuthorByIdAsync and GetBooksByAuthorAsync

  /** `FirstOrDefaultAsync(a => a.AuthorId == authorId)`. */
  function GetAuthorById(t: Tables, authorId: int): (r: Option<Author>)
    ensures r.Some? <==> authorId in AuthorIds(t.authors)
    ensures r.Some? ==> r.value in t.authors && r.value.authorId == authorId
  {
    var i := FindAuthor(t.authors, authorId);
    if i.None? then None else Some(t.authors[i.value])
  }

  predicate WrittenBy(b: Book, authorId: int)
  {
    b.authorId == Some(authorId)
  }

  /** `author.Books`: the books that name the author, in table order. */
  function BooksOf(t: Tables, authorId: int): seq<Book>
  {
    Filter(t.books, (b: Book) => WrittenBy(b, authorId))
  }

  function CreatedKey(b: Book): Key
  {
    TimeKey(b.createdAt, true)
  }

  /** The card of a book on an author's page; a missing author or publisher shows as "unknown". */
  function AuthorBookCard(t: Tables, b: Book, userId: Option<int>): BookCard
  {
    var author := AuthorNameOf(t, b);
    var publisher := PublisherNameOf(t, b);
    BookCard(b.bookId, b.title, b.description, b.publishedYear, b.genre, b.price, b.urlImage,
      Some(if author.Some? then author.value else Unknown), b.authorId,
      Some(if publisher.Some? then publisher.value else Unknown),
      BookAverage(t, b.bookId), TopLevelReviewCount(t, b.bookId), FavoriteCount(t, b.bookId),
      FavoritedBy(t, b.bookId, userId), b.createdAt, OrZero(b.viewCount))
  }

  function AuthorCardOf(t: Tables, userId: Option<int>): Book -> BookCard
  {
    (b: Book) => AuthorBookCard(t, b, userId)
  }

  /** The author's books, newest first (a missing creation time first, as PostgreSQL sorts nulls when descending). */
  function NewestBooksOf(t: Tables, authorId: int): seq<Book>
  {
    SortBy(BooksOf(t, authorId), CreatedKey, true)
  }

  /** One page of an author's books, or nothing when PostgreSQL rejects the negative offset or limit. */
  function GetBooksByAuthor(t: Tables, authorId: int, page: int, pageSize: int, userId: Option<int>): Option<Paginated<BookCard>>
  {
    Paginate(NewestBooksOf(t, authorId), |BooksOf(t, authorId)|, page, pageSize, AuthorCardOf(t, userId))
  }

  /** The author's books on one page, in display order. */
  function AuthorPage(t: Tables, authorId: int, page: int, pageSize: int): seq<Book>
  {
    PageOf(NewestBooksOf(t, authorId), page, pageSize)
  }

  /**
   * The page is answered unless its offset or size is negative; it echoes
   * the requested page and size, its total counts every book of the author
   * whatever the page, and it holds the cards of at most `pageSize` books,
   * none for a page past the end.
   */
  lemma GetBooksByAuthorSpec(t: Tables, authorId: int, page: int, pageSize: int, userId: Option<int>)
    ensures var r := GetBooksByAuthor(t, authorId, page, pageSize, userId);
      (r.Some? <==> Offset(page, pageSize) >= 0 && pageSize >= 0) &&
      (r.Some? ==>
        r.value.page == page && r.value.pageSize == pageSize &&
        r.value.totalCount == Count(t.books, (b: Book) => WrittenBy(b, authorId)) &&
        r.value.items == Map(AuthorPage(t, authorId, page, pageSize), AuthorCardOf(t, userId)) &&
        |r.value.items| <= pageSize &&
        (Offset(page, pageSize) >= r.value.totalCount ==> r.value.items == []))
  {
    var sorted := NewestBooksOf(t, authorId);
    var total := |BooksOf(t, authorId)|;
    PaginateSpec(sorted, total, page, pageSize, AuthorCardOf(t, userId));
    assert |sorted| == total;
  }

  /** The books of a page are the author's, newest first, and each card names an author and a publisher. */
  lemma AuthorPageSpec(t: Tables, authorId: int, page: int, pageSize: int, userId: Option<int>)
    ensures var books := AuthorPage(t, authorId, page, pageSize);
      Sorted(books, CreatedKey, true) &&
      forall b :: b in books ==>
        b in t.books && b.authorId == Some(authorId) &&
        AuthorBookCard(t, b, userId).bookId == b.bookId &&
        AuthorBookCard(t, b, userId).authorName.Some? && AuthorBookCard(t, b, userId).publisherName.Some?
  {
    var sorted := NewestBooksOf(t, authorId);
    SortBySorted(BooksOf(t, authorId), CreatedKey, true);
    SortByMembers(BooksOf(t, authorId), CreatedKey, true);
    PageSorted(sorted, CreatedKey, true, page, pageSize);
    PageMembers(sorted, page, pageSize);
  }

  /** On a consistent database every card of an author's page names that author. */
  lemma AuthorCardNamesAuthor(t: Tables, authorId: int, b: Book, userId: Option<int>)
    requires Valid(t) && b in t.books && b.authorId == Some(authorId)
    ensures AuthorBookCard(t, b, userId).authorName == Some(GetAuthorById(t, authorId).value.authorName)
  {
  }

  // ---------------------------------------------------------------------------
  // GetAllAuthorsAsync

  /** Every author, by name. */
  function AuthorsByName(t: Tables): seq<Author>
  {
    SortBy(t.authors, NameKey, false)
  }

  /** One page of all authors by name, or nothing when PostgreSQL rejects the negative offset or limit. */
  function GetAllAuthors(t: Tables, page: int, pageSize: int): (r: Option<seq<Author>>)
    ensures r.Some? <==> Offset(page, pageSize) >= 0 && pageSize >= 0
    ensures r.Some? ==> |r.value| <= pageSize
  {
    DbPage(AuthorsByName(t), page, pageSize)
  }

  /**
   * The page is answered unless its offset or size is negative; it holds at
   * most `pageSize` authors, by name, and only authors of the table; from
   * page 1 on it is the run of the authors by name that starts at
   * `(page - 1) * pageSize`, not empty while that offset is below the number
   * of authors.
   */
  lemma GetAllAuthorsSpec(t: Tables, page: int, pageSize: int)
    ensures var r := GetAllAuthors(t, page, pageSize);
      (r.Some? <==> Offset(page, pageSize) >= 0 && pageSize >= 0) &&
      (r.Some? ==>
        |r.value| <= pageSize && Sorted(r.value, NameKey, false) &&
        forall a :: a in r.value ==> a in t.authors)
    ensures page >= 1 && pageSize >= 0 ==>
      GetAllAuthors(t, page, pageSize) == Some(Window(AuthorsByName(t), page, pageSize))
    ensures page >= 1 && pageSize > 0 && (page - 1) * pageSize < |t.authors| ==>
      |Window(AuthorsByName(t), page, pageSize)| > 0
  {
    var sorted := AuthorsByName(t);
    if page >= 1 && pageSize >= 0 {
      DbPageWindow(sorted, page, pageSize);
    }
    DbPageSpec(sorted, page, pageSize);
    SortBySorted(t.authors, NameKey, false);
    SortByMembers(t.authors, NameKey, false);
    PageSorted(sorted, NameKey, false, page, pageSize);
    PageMembers(sorted, page, pageSize);
  }

  // ---------------------------------------------------------------------------
  // GetAuthorStatsAsync

  /** `AuthorStatsDto`; `topGenres` lists the entries of the `TopGenres` dictionary in insertion order. */
  datatype AuthorStats = AuthorStats(
    totalBooks: int,
    totalViews: int,
    totalFavorites: int,
    totalReviews: int,
    averageRating: real,
    topGenres: seq<Tally<string>>,
    mostPopularBook: Option<Book>)

  /** `new AuthorStatsDto()`. */
  const NoStats: AuthorStats := AuthorStats(0, 0, 0, 0, 0.0, [], None)

  function ViewsOf(b: Book): int
  {
    OrZero(b.viewCount)
  }

  function FavoritesOf(t: Tables): Book -> int
  {
    (b: Book) => FavoriteCount(t, b.bookId)
  }

  function TopLevelReviewsOf(t: Tables): Book -> int
  {
    (b: Book) => TopLevelReviewCount(t, b.bookId)
  }

  /** The average rating of one book, over its rated top-level reviews. */
  function BookAverageOf(t: Tables): Book -> real
  {
    (b: Book) => AverageRating(Ratings(t.reviews, b.bookId))
  }

  /** The books with at least one rated top-level review. */
  function RatedBooks(t: Tables, books: seq<Book>): seq<Book>
  {
    Filter(books, (b: Book) => |Ratings(t.reviews, b.bookId)| > 0)
  }

  function RealSum(xs: seq<real>): real
  {
    if xs == [] then 0.0 else xs[0] + RealSum(xs[1..])
  }

  /** `DefaultIfEmpty(0).Average()`: the mean, or 0 for no values. */
  function MeanOrZero(xs: seq<real>): real
  {
    if xs == [] then 0.0 else RealSum(xs) / |xs| as real
  }

  /** The books with a non-empty genre. */
  function GenreBooks(books: seq<Book>): seq<Book>
  {
    Filter(books, (b: Book) => !IsNullOrEmpty(b.genre))
  }

  /** Favourite count then view count, both descending, computed in memory: a null view count is the smallest. */
  function PopularKey(t: Tables): Book -> Key
  {
    (b: Book) => [IntAtom(FavoriteCount(t, b.bookId))] + OptIntKey(b.viewCount, false)
  }

  /** `OrderByDescending(favourites).ThenByDescending(ViewCount).FirstOrDefault()`. */
  function MostPopular(t: Tables, books: seq<Book>): Option<Book>
  {
    var sorted := SortBy(books, PopularKey(t), true);
    if sorted == [] then None else Some(sorted[0])
  }

  /** The statistics of one author; the default record for an unknown author. */
  function GetAuthorStats(t: Tables, authorId: int): AuthorStats
  {
    if GetAuthorById(t, authorId).None? then NoStats
    else
      var books := BooksOf(t, authorId);
      AuthorStats(
        |books|,
        Sum(books, ViewsOf),
        Sum(books, FavoritesOf(t)),
        Sum(books, TopLevelReviewsOf(t)),
        MeanOrZero(Map(RatedBooks(t, books), BookAverageOf(t))),
        TopTallies(GenreBooks(books), GenreOf, 5),
        MostPopular(t, books))
  }

  /** The ids of a list of books. */
  function BookIdList(books: seq<Book>): seq<int>
  {
    Map(books, BookKey)
  }

  /** Summing the favourite counts of books with distinct ids counts the favourites of those books. */
  lemma {:induction false} SumFavorites(t: Tables, books: seq<Book>)
    requires KeysDistinct(books, BookKey)
    ensures Sum(books, FavoritesOf(t)) == Count(t.favorites, (f: FavoriteBook) => f.bookId in BookIdList(books))
  {
    if books == [] {
      CountZero(t.favorites, (f: FavoriteBook) => f.bookId in BookIdList(books));
    } else {
      var rest := books[1..];
      assert KeysDistinct(rest, BookKey) by {
        assert forall i :: 0 <= i < |rest| ==> rest[i] == books[i + 1];
      }
      SumFavorites(t, rest);
      assert BookIdList(books) == [books[0].bookId] + BookIdList(rest);
      assert books[0].bookId !in BookIdList(rest) by {
        forall k | 0 <= k < |rest|
          ensures BookIdList(rest)[k] != books[0].bookId
        {
          assert rest[k] == books[k + 1];
        }
      }
      CountOr(t.favorites, (f: FavoriteBook) => f.bookId == books[0].bookId,
        (f: FavoriteBook) => f.bookId in BookIdList(rest),
        (f: FavoriteBook) => f.bookId in BookIdList(books));
    }
  }

  /** Summing the top-level review counts of books with distinct ids counts the top-level reviews of those books. */
  lemma {:induction false} SumTopLevelReviews(t: Tables, books: seq<Book>)
    requires KeysDistinct(books, BookKey)
    ensures Sum(books, TopLevelReviewsOf(t)) ==
      Count(t.reviews, (r: Review) => r.parentReviewId.None? && r.bookId in BookIdList(books))
  {
    if books == [] {
      CountZero(t.reviews, (r: Review) => r.parentReviewId.None? && r.bookId in BookIdList(books));
    } else {
      var rest := books[1..];
      assert KeysDistinct(rest, BookKey) by {
        assert forall i :: 0 <= i < |rest| ==> rest[i] == books[i + 1];
      }
      SumTopLevelReviews(t, rest);
      assert BookIdList(books) == [books[0].bookId] + BookIdList(rest);
      assert books[0].bookId !in BookIdList(rest) by {
        forall k | 0 <= k < |rest|
          ensures BookIdList(rest)[k] != books[0].bookId
        {
          assert rest[k] == books[k + 1];
        }
      }
      CountOr(t.reviews, (r: Review) => r.bookId == books[0].bookId && r.parentReviewId.None?,
        (r: Review) => r.parentReviewId.None? && r.bookId in BookIdList(rest),
        (r: Review) => r.parentReviewId.None? && r.bookId in BookIdList(books));
    }
  }

  /** The author's books are the books naming the author, each id once. */
  lemma BooksOfSpec(t: Tables, authorId: int)
    requires BooksOk(t.books)
    ensures KeysDistinct(BooksOf(t, authorId), BookKey)
    ensures forall b :: b in BooksOf(t, authorId) <==> b in t.books && b.authorId == Some(authorId)
  {
    assert KeysDistinct(t.books, BookKey);
    FilterKeysDistinct(t.books, BookKey, (b: Book) => WrittenBy(b, authorId));
  }

  /** An id is listed exactly when one of the books has it. */
  lemma BookIdListSpec(books: seq<Book>)
    ensures forall id :: id in BookIdList(books) <==> exists b :: b in books && b.bookId == id
  {
    forall id
      ensures id in BookIdList(books) <==> exists b :: b in books && b.bookId == id
    {
      if id in BookIdList(books) {
        var k :| 0 <= k < |books| && BookIdList(books)[k] == id;
        assert books[k] in books;
      }
      if exists b :: b in books && b.bookId == id {
        var b :| b in books && b.bookId == id;
        var k :| 0 <= k < |books| && books[k] == b;
        assert BookIdList(books)[k] == id;
      }
    }
  }

  /**
   * An unknown author gets the all-zero record. Otherwise TotalBooks counts
   * the author's books, TotalFavorites counts the favourite rows of those
   * books and TotalReviews their top-level reviews, replies left out.
   */
  lemma AuthorStatsTotals(t: Tables, authorId: int)
    requires BooksOk(t.books)
    ensures var s := GetAuthorStats(t, authorId);
      (authorId !in AuthorIds(t.authors) ==> s == NoStats) &&
      (authorId in AuthorIds(t.authors) ==>
        var ids := BookIdList(BooksOf(t, authorId));
        s.totalBooks == Count(t.books, (b: Book) => WrittenBy(b, authorId)) &&
        s.totalViews == Sum(BooksOf(t, authorId), ViewsOf) &&
        s.totalFavorites == Count(t.favorites, (f: FavoriteBook) => f.bookId in ids) &&
        s.totalReviews == Count(t.reviews, (r: Review) => r.parentReviewId.None? && r.bookId in ids))
  {
    if authorId in AuthorIds(t.authors) {
      BooksOfSpec(t, authorId);
      SumFavorites(t, BooksOf(t, authorId));
      SumTopLevelReviews(t, BooksOf(t, authorId));
    }
  }

  /** Values between `lo` and `hi` sum to between `n * lo` and `n * hi`. */
  lemma {:induction false} RealSumBounds(xs: seq<real>, lo: real, hi: real)
    requires forall k :: 0 <= k < |xs| ==> lo <= xs[k] <= hi
    ensures |xs| as real * lo <= RealSum(xs) <= |xs| as real * hi
  {
    if xs != [] {
      assert forall k :: 0 <= k < |xs[1..]| ==> xs[1..][k] == xs[k + 1];
      RealSumBounds(xs[1..], lo, hi);
    }
  }

  /** Every value lies between 1 and 5. */
  predicate StarValues(xs: seq<real>)
  {
    forall k :: 0 <= k < |xs| ==> 1.0 <= xs[k] <= 5.0
  }

  lemma QuotientAtLeast(total: real, n: real, lo: real)
    requires n > 0.0 && total >= n * lo
    ensures total / n >= lo
  {
    var m := total / n;
    assert m * n == total;
    if m < lo {
      assert m * n < lo * n;
    }
  }

  lemma QuotientAtMost(total: real, n: real, hi: real)
    requires n > 0.0 && total <= n * hi
    ensures total / n <= hi
  {
    var m := total / n;
    assert m * n == total;
    if m > hi {
      assert m * n > hi * n;
    }
  }

  /** The mean of values between 1 and 5 lies between 1 and 5. */
  lemma MeanBounds(xs: seq<real>)
    requires xs != [] && StarValues(xs)
    ensures 1.0 <= MeanOrZero(xs) <= 5.0
  {
    RealSumBounds(xs, 1.0, 5.0);
    QuotientAtLeast(RealSum(xs), |xs| as real, 1.0);
    QuotientAtMost(RealSum(xs), |xs| as real, 5.0);
  }

  /** With every rating a star from 1 to 5, each rated book's average lies between 1 and 5. */
  lemma BookAveragesBounded(t: Tables, books: seq<Book>)
    requires forall b :: b in t.books ==> StarsInRange(Ratings(t.reviews, b.bookId))
    requires forall b :: b in books ==> b in t.books
    ensures StarValues(Map(RatedBooks(t, books), BookAverageOf(t)))
  {
    var rated := RatedBooks(t, books);
    var xs := Map(rated, BookAverageOf(t));
    forall k | 0 <= k < |xs|
      ensures 1.0 <= xs[k] <= 5.0
    {
      assert rated[k] in rated;
      AverageBounds(Ratings(t.reviews, rated[k].bookId));
    }
  }

  /**
   * AverageRating: 0 for an unknown author or one whose books have no rated
   * top-level review; otherwise, with every rating a star from 1 to 5, the
   * mean of the per-book averages lies between 1 and 5.
   */
  lemma AuthorAverageRating(t: Tables, authorId: int)
    requires forall b :: b in t.books ==> StarsInRange(Ratings(t.reviews, b.bookId))
    ensures var s := GetAuthorStats(t, authorId);
      authorId !in AuthorIds(t.authors) || RatedBooks(t, BooksOf(t, authorId)) == [] ==> s.averageRating == 0.0
    ensures var s := GetAuthorStats(t, authorId);
      authorId in AuthorIds(t.authors) && RatedBooks(t, BooksOf(t, authorId)) != [] ==> 1.0 <= s.averageRating <= 5.0
  {
    var books := BooksOf(t, authorId);
    var xs := Map(RatedBooks(t, books), BookAverageOf(t));
    AuthorStatsAverage(t, authorId);
    BookAveragesBounded(t, books);
    if xs != [] {
      MeanBounds(xs);
    }
  }

  /** The statistics' average is the mean of the per-book averages of the author's rated books. */
  lemma AuthorStatsAverage(t: Tables, authorId: int)
    ensures GetAuthorStats(t, authorId).averageRating ==
      if authorId in AuthorIds(t.authors) then MeanOrZero(Map(RatedBooks(t, BooksOf(t, authorId)), BookAverageOf(t))) else 0.0
  {
  }

  /**
   * TopGenres: at most five genres, each non-empty and listed once, with the
   * number of the author's books in it, largest first; a genre of the
   * author's left out means five are listed, none smaller than it.
   */
  lemma AuthorTopGenresSpec(t: Tables, authorId: int)
    ensures var s := GetAuthorStats(t, authorId);
      var named := GenreBooks(BooksOf(t, authorId));
      |s.topGenres| <= 5 && DistinctKeys(s.topGenres) && LargestFirst(s.topGenres) &&
      (authorId in AuthorIds(t.authors) ==>
        CountsGroups(s.topGenres, named, GenreOf) && KeepsLargest(s.topGenres, named, GenreOf, 5) &&
        forall g :: g in KeysOf(s.topGenres) ==> g != [])
  {
    var named := GenreBooks(BooksOf(t, authorId));
    TopTalliesSpec(named, GenreOf, 5);
    var top := TopTallies(named, GenreOf, 5);
    forall g | g in KeysOf(top)
      ensures g != []
    {
      var k :| 0 <= k < |top| && KeysOf(top)[k] == g;
      assert top[k] in top;
      var b := GroupMember(named, GenreOf, g);
    }
  }

  /** A group of positive size has a member with its key. */
  lemma GroupMember<T(!new), K(!new)>(s: seq<T>, key: T -> K, k: K) returns (x: T)
    requires GroupSize(s, key, k) >= 1
    ensures x in s && key(x) == k
  {
    CountPositive(s, (y: T) => key(y) == k);
    var i :| 0 <= i < |s| && key(s[i]) == k;
    x := s[i];
  }

  /**
   * MostPopularBook: none exactly when the author has no book; otherwise
   * one of the author's books that no other of them outranks on favourite
   * count and then view count, so no book has more favourites.
   */
  lemma MostPopularSpec(t: Tables, books: seq<Book>)
    ensures MostPopular(t, books).None? <==> books == []
    ensures MostPopular(t, books).Some? ==>
      var m := MostPopular(t, books).value;
      m in books &&
      forall b :: b in books ==>
        !Before(PopularKey(t), true, b, m) && FavoriteCount(t, b.bookId) <= FavoriteCount(t, m.bookId)
  {
    var sorted := SortBy(books, PopularKey(t), true);
    SortByMembers(books, PopularKey(t), true);
    SortBySorted(books, PopularKey(t), true);
    if sorted != [] {
      var m := sorted[0];
      assert m in sorted;
      forall b | b in books
        ensures !Before(PopularKey(t), true, b, m) && FavoriteCount(t, b.bookId) <= FavoriteCount(t, m.bookId)
      {
        var j :| 0 <= j < |sorted| && sorted[j] == b;
        if j > 0 {
          assert !Before(PopularKey(t), true, sorted[j], sorted[0]);
        } else {
          KeyLtIrreflexive(PopularKey(t)(m));
        }
        PopularKeyFavorites(t, b, m);
      }
    }
  }

  /** A book with more favourites comes first in the popularity order. */
  lemma PopularKeyFavorites(t: Tables, b: Book, m: Book)
    ensures FavoriteCount(t, b.bookId) > FavoriteCount(t, m.bookId) ==> Before(PopularKey(t), true, b, m)
  {
    var kb, km := PopularKey(t)(b), PopularKey(t)(m);
    assert kb[0] == IntAtom(FavoriteCount(t, b.bookId)) && km[0] == IntAtom(FavoriteCount(t, m.bookId));
    if FavoriteCount(t, b.bookId) > FavoriteCount(t, m.bookId) {
      assert AtomLt(km[0], kb[0]);
    }
  }
}
