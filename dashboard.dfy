// The administration dashboard: table totals, the newest rows, and the
// in-memory aggregations (most searched terms, authors with most books,
// per-genre and per-month statistics), with every list emptied when a
// database call fails.
module Dashboard {
  import opened Seqs
  import opened Sorting
  import opened Text
  import opened Entities
  import opened Grouping
  import UserPages
  import BooksIndex

  /** How many entries each list keeps. */
  const RecentShown: int := 5
  const TopTermsShown: int := 5
  const TopAuthorsShown: int := 5
  const GenresShown: int := 10

  // ---------------------------------------------------------------------------
  // Two-atom and one-atom keys

  lemma NumKeyLt(a: real, b: real)
    ensures KeyLt([Num(a)], [Num(b)]) <==> a < b
  {
    assert [Num(a)][1..] == [] && [Num(b)][1..] == [];
  }

  lemma PairKeyLt(y1: int, m1: int, y2: int, m2: int)
    ensures KeyLt([IntAtom(y1), IntAtom(m1)], [IntAtom(y2), IntAtom(m2)]) <==>
      (y1 < y2 || (y1 == y2 && m1 < m2))
  {
    var a, b := [IntAtom(y1), IntAtom(m1)], [IntAtom(y2), IntAtom(m2)];
    assert a[1..] == [IntAtom(m1)] && b[1..] == [IntAtom(m2)];
    NumKeyLt(m1 as real, m2 as real);
  }

  // ---------------------------------------------------------------------------
  // Newest rows and most viewed books (database sorts: a null sorts as the
  // largest value, so first in a descending order)

  function CreatedKey(b: Book): Key
  {
    TimeKey(b.createdAt, true)
  }

  function UserCreatedKey(u: User): Key
  {
    TimeKey(u.createdAt, true)
  }

  function ReviewCreatedKey(r: Review): Key
  {
    TimeKey(r.createdAt, true)
  }

  function ViewKey(b: Book): Key
  {
    OptIntKey(b.viewCount, true)
  }

  function HoldsUserRole(t: Tables): User -> bool
  {
    (u: User) => "User" in UserPages.RoleNames(t, u.userId)
  }

  predicate Viewed(b: Book)
  {
    b.viewCount.Some?
  }

  /** The five newest users holding the "User" role. */
  function RecentUsers(t: Tables): (r: seq<User>)
    ensures |r| <= RecentShown
    ensures forall u :: u in r ==> u in t.users && "User" in UserPages.RoleNames(t, u.userId)
  {
    TopOf(Filter(t.users, HoldsUserRole(t)), UserCreatedKey, true, RecentShown);
    Take(SortBy(Filter(t.users, HoldsUserRole(t)), UserCreatedKey, true), RecentShown)
  }

  /** The five newest books. */
  function RecentBooks(t: Tables): (r: seq<Book>)
    ensures |r| == if |t.books| < RecentShown then |t.books| else RecentShown
    ensures forall b :: b in r ==> b in t.books
  {
    TopOf(t.books, CreatedKey, true, RecentShown);
    Take(SortBy(t.books, CreatedKey, true), RecentShown)
  }

  /** The five newest reviews and replies. */
  function RecentReviews(t: Tables): (r: seq<Review>)
    ensures |r| == if |t.reviews| < RecentShown then |t.reviews| else RecentShown
    ensures forall x :: x in r ==> x in t.reviews
  {
    TopOf(t.reviews, ReviewCreatedKey, true, RecentShown);
    Take(SortBy(t.reviews, ReviewCreatedKey, true), RecentShown)
  }

  /**
   * The three lists of newest rows are newest first (a null creation time
   * first of all), and no row left out of a list is newer than one listed.
   */
  lemma RecentListsSpec(t: Tables)
    ensures Sorted(RecentUsers(t), UserCreatedKey, true) && Sorted(RecentBooks(t), CreatedKey, true) &&
      Sorted(RecentReviews(t), ReviewCreatedKey, true)
    ensures forall u, x ::
      u in t.users && "User" in UserPages.RoleNames(t, u.userId) && u !in RecentUsers(t) && x in RecentUsers(t) ==>
        !Before(UserCreatedKey, true, u, x)
    ensures forall b, x :: b in t.books && b !in RecentBooks(t) && x in RecentBooks(t) ==> !Before(CreatedKey, true, b, x)
    ensures forall v, x :: v in t.reviews && v !in RecentReviews(t) && x in RecentReviews(t) ==>
      !Before(ReviewCreatedKey, true, v, x)
  {
    var users := Filter(t.users, HoldsUserRole(t));
    TopOf(users, UserCreatedKey, true, RecentShown);
    TopOf(t.books, CreatedKey, true, RecentShown);
    TopOf(t.reviews, ReviewCreatedKey, true, RecentShown);
    forall u | u in t.users && "User" in UserPages.RoleNames(t, u.userId)
      ensures u in users
    {
      assert HoldsUserRole(t)(u);
    }
  }

  /** The five books with a view count that have the most views. */
  function TopViewedBooks(t: Tables): (r: seq<Book>)
    ensures |r| <= RecentShown
    ensures forall b :: b in r ==> b in t.books && b.viewCount.Some?
  {
    TopOf(Filter(t.books, Viewed), ViewKey, true, RecentShown);
    Take(SortBy(Filter(t.books, Viewed), ViewKey, true), RecentShown)
  }

  /**
   * The most viewed books: at most five, all with a view count, most
   * views first, and a book with a view count that is left out has no
   * more views than any book listed.
   */
  lemma TopViewedBooksSpec(t: Tables)
    ensures var r := TopViewedBooks(t);
      |r| <= RecentShown &&
      (forall i :: 0 <= i < |r| ==> r[i] in t.books && r[i].viewCount.Some?) &&
      (forall i, j :: 0 <= i < j < |r| ==> r[i].viewCount.value >= r[j].viewCount.value) &&
      (forall b, x :: b in t.books && b.viewCount.Some? && b !in r && x in r ==>
        x.viewCount.value >= b.viewCount.value)
  {
    var viewed := Filter(t.books, Viewed);
    var r := TopViewedBooks(t);
    TopOf(viewed, ViewKey, true, RecentShown);
    forall i | 0 <= i < |r|
      ensures r[i] in t.books && r[i].viewCount.Some?
    {
      assert r[i] in r;
    }
    forall i, j | 0 <= i < j < |r|
      ensures r[i].viewCount.value >= r[j].viewCount.value
    {
      assert r[i] in r && r[j] in r;
      assert !Before(ViewKey, true, r[j], r[i]);
      assert ViewKey(r[i]) == [Num(r[i].viewCount.value as real)] && ViewKey(r[j]) == [Num(r[j].viewCount.value as real)];
      NumKeyLt(r[i].viewCount.value as real, r[j].viewCount.value as real);
    }
    forall b, x | b in t.books && b.viewCount.Some? && b !in r && x in r
      ensures x.viewCount.value >= b.viewCount.value
    {
      assert b in viewed;
      assert !Before(ViewKey, true, b, x);
      assert x in viewed;
      assert ViewKey(x) == [Num(x.viewCount.value as real)] && ViewKey(b) == [Num(b.viewCount.value as real)];
      NumKeyLt(x.viewCount.value as real, b.viewCount.value as real);
    }
  }

  // ---------------------------------------------------------------------------
  // Most searched terms

  predicate HasText(s: SearchLog)
  {
    s.searchText != []
  }

  function SearchTextOf(s: SearchLog): string
  {
    s.searchText
  }

  /** The logged searches with a non-empty text. */
  function Searches(logs: seq<SearchLog>): seq<SearchLog>
  {
    Filter(logs, HasText)
  }

  /**
   * `GroupBy(s => s).OrderByDescending(g => g.Count()).Take(5)` over the
   * texts: grouping the searches by their text gives the same groups in
   * the same order.
   */
  function TopSearchTerms(logs: seq<SearchLog>): (r: seq<string>)
    ensures |r| <= TopTermsShown
  {
    KeysOf(TopTallies(Searches(logs), SearchTextOf, TopTermsShown))
  }

  function TextIs(term: string): SearchLog -> bool
  {
    (s: SearchLog) => s.searchText == term
  }

  /** How many logged searches have exactly this text. */
  function SearchCount(logs: seq<SearchLog>, term: string): nat
  {
    Count(logs, TextIs(term))
  }

  /** A group of the searches is every logged search with its (non-empty) text. */
  lemma SearchGroupSize(logs: seq<SearchLog>, term: string)
    ensures GroupSize(Searches(logs), SearchTextOf, term) >= 1 ==> term != []
    ensures term != [] ==> GroupSize(Searches(logs), SearchTextOf, term) == SearchCount(logs, term)
  {
    var rows := Searches(logs);
    if GroupSize(rows, SearchTextOf, term) >= 1 {
      GroupWitness(rows, SearchTextOf, term);
    }
    if term != [] {
      GroupSizeAs(rows, SearchTextOf, term, TextIs(term));
      CountFilter(logs, HasText, TextIs(term), TextIs(term));
    }
  }

  /** What the grouping proves of the largest groups of searches, said with search counts. */
  lemma TopTermTallies(logs: seq<SearchLog>)
    ensures var g := TopTallies(Searches(logs), SearchTextOf, TopTermsShown);
      |g| <= TopTermsShown && DistinctKeys(g) && LargestFirst(g) &&
      (forall i :: 0 <= i < |g| ==> g[i].key != [] && g[i].count == SearchCount(logs, g[i].key) && g[i].count >= 1) &&
      (forall s :: s in logs && s.searchText != [] && s.searchText !in KeysOf(g) ==>
        |g| == TopTermsShown && forall i :: 0 <= i < |g| ==> g[i].count >= SearchCount(logs, s.searchText))
  {
    var rows := Searches(logs);
    var g := TopTallies(rows, SearchTextOf, TopTermsShown);
    TopTalliesSpec(rows, SearchTextOf, TopTermsShown);
    forall i | 0 <= i < |g|
      ensures g[i].key != [] && g[i].count == SearchCount(logs, g[i].key)
    {
      assert g[i] in g;
      SearchGroupSize(logs, g[i].key);
    }
    forall s | s in logs && s.searchText != [] && s.searchText !in KeysOf(g)
      ensures |g| == TopTermsShown && forall i :: 0 <= i < |g| ==> g[i].count >= SearchCount(logs, s.searchText)
    {
      assert s in rows;
      SearchGroupSize(logs, s.searchText);
      forall i | 0 <= i < |g|
        ensures g[i].count >= SearchCount(logs, s.searchText)
      {
        assert g[i] in g;
      }
    }
  }

  /** The keys of tallies with those properties, as a list of terms. */
  lemma TermsOfTallies(logs: seq<SearchLog>, g: seq<Tally<string>>)
    requires |g| <= TopTermsShown && DistinctKeys(g) && LargestFirst(g)
    requires forall i :: 0 <= i < |g| ==> g[i].key != [] && g[i].count == SearchCount(logs, g[i].key) && g[i].count >= 1
    requires forall s :: s in logs && s.searchText != [] && s.searchText !in KeysOf(g) ==>
      |g| == TopTermsShown && forall i :: 0 <= i < |g| ==> g[i].count >= SearchCount(logs, s.searchText)
    ensures var r := KeysOf(g);
      |r| <= TopTermsShown &&
      (forall i, j :: 0 <= i < j < |r| ==> r[i] != r[j]) &&
      (forall i :: 0 <= i < |r| ==> r[i] != [] && SearchCount(logs, r[i]) >= 1) &&
      (forall i, j :: 0 <= i < j < |r| ==> SearchCount(logs, r[i]) >= SearchCount(logs, r[j]))
    ensures var r := KeysOf(g);
      forall s :: s in logs && s.searchText != [] && s.searchText !in r ==>
        |r| == TopTermsShown && forall term :: term in r ==> SearchCount(logs, term) >= SearchCount(logs, s.searchText)
  {
    var r := KeysOf(g);
    forall s | s in logs && s.searchText != [] && s.searchText !in r
      ensures forall term :: term in r ==> SearchCount(logs, term) >= SearchCount(logs, s.searchText)
    {
      forall term | term in r
        ensures SearchCount(logs, term) >= SearchCount(logs, s.searchText)
      {
        var i :| 0 <= i < |r| && r[i] == term;
      }
    }
  }

  /**
   * At most five terms, no term twice, every term non-empty and searched,
   * most searched first; and a searched term that is left out means five
   * terms are listed, each searched at least as often.
   */
  lemma TopSearchTermsSpec(logs: seq<SearchLog>)
    ensures var r := TopSearchTerms(logs);
      |r| <= TopTermsShown &&
      (forall i, j :: 0 <= i < j < |r| ==> r[i] != r[j]) &&
      (forall i :: 0 <= i < |r| ==> r[i] != [] && SearchCount(logs, r[i]) >= 1) &&
      (forall i, j :: 0 <= i < j < |r| ==> SearchCount(logs, r[i]) >= SearchCount(logs, r[j]))
    ensures var r := TopSearchTerms(logs);
      forall s :: s in logs && s.searchText != [] && s.searchText !in r ==>
        |r| == TopTermsShown && forall term :: term in r ==> SearchCount(logs, term) >= SearchCount(logs, s.searchText)
  {
    TopTermTallies(logs);
    TermsOfTallies(logs, TopTallies(Searches(logs), SearchTextOf, TopTermsShown));
  }

  // ---------------------------------------------------------------------------
  // Authors with most books

  function ByAuthor(authorId: int): Book -> bool
  {
    (b: Book) => b.authorId == Some(authorId)
  }

  /** `a.Books.Count()`. */
  function AuthorBookCount(t: Tables, a: Author): nat
  {
    Count(t.books, ByAuthor(a.authorId))
  }

  function AuthorCountKey(t: Tables): Author -> Key
  {
    (a: Author) => [Num(AuthorBookCount(t, a) as real)]
  }

  /** The five authors with most books; authors with equal counts keep table order. */
  function TopAuthors(t: Tables): (r: seq<Author>)
    ensures |r| == if |t.authors| < TopAuthorsShown then |t.authors| else TopAuthorsShown
    ensures forall a :: a in r ==> a in t.authors
  {
    TopOf(t.authors, AuthorCountKey(t), true, TopAuthorsShown);
    Take(SortBy(t.authors, AuthorCountKey(t), true), TopAuthorsShown)
  }

  /**
   * Five authors, or every author when there are fewer, most books first,
   * and no author left out has more books than an author listed.
   */
  lemma TopAuthorsSpec(t: Tables)
    ensures var r := TopAuthors(t);
      |r| == (if |t.authors| < TopAuthorsShown then |t.authors| else TopAuthorsShown) &&
      (forall i :: 0 <= i < |r| ==> r[i] in t.authors) &&
      (forall i, j :: 0 <= i < j < |r| ==> AuthorBookCount(t, r[i]) >= AuthorBookCount(t, r[j])) &&
      (forall a, x :: a in t.authors && a !in r && x in r ==> AuthorBookCount(t, x) >= AuthorBookCount(t, a))
  {
    var r := TopAuthors(t);
    var key := AuthorCountKey(t);
    TopOf(t.authors, key, true, TopAuthorsShown);
    forall i | 0 <= i < |r|
      ensures r[i] in t.authors
    {
      assert r[i] in r;
    }
    forall i, j | 0 <= i < j < |r|
      ensures AuthorBookCount(t, r[i]) >= AuthorBookCount(t, r[j])
    {
      assert !Before(key, true, r[j], r[i]);
      NumKeyLt(AuthorBookCount(t, r[i]) as real, AuthorBookCount(t, r[j]) as real);
    }
    forall a, x | a in t.authors && a !in r && x in r
      ensures AuthorBookCount(t, x) >= AuthorBookCount(t, a)
    {
      assert !Before(key, true, a, x);
      NumKeyLt(AuthorBookCount(t, x) as real, AuthorBookCount(t, a) as real);
    }
  }

  // ---------------------------------------------------------------------------
  // Per-genre statistics

  datatype GenreStats = GenreStats(genre: string, bookCount: int, totalViews: int)

  predicate HasGenre(b: Book)
  {
    !IsNullOrEmpty(b.genre)
  }

  function GenreText(b: Book): string
  {
    if b.genre.Some? then b.genre.value else ""
  }

  function OfGenre(genre: string): Book -> bool
  {
    (b: Book) => b.genre == Some(genre)
  }

  function ViewsOf(b: Book): int
  {
    OrZero(b.viewCount)
  }

  /** The books with a non-empty genre. */
  function GenreRows(books: seq<Book>): seq<Book>
  {
    Filter(books, HasGenre)
  }

  /** `g.Sum(b => b.ViewCount ?? 0)` over the group of `genre`. */
  function GenreViews(rows: seq<Book>, genre: string): int
  {
    Sum(Filter(rows, OfGenre(genre)), ViewsOf)
  }

  function GenreStatsOf(rows: seq<Book>): string -> GenreStats
  {
    (g: string) => GenreStats(g, GroupSize(rows, GenreText, g), GenreViews(rows, g))
  }

  function BookCountKey(s: GenreStats): Key
  {
    [Num(s.bookCount as real)]
  }

  /** Group by genre, count and sum the views, most books first, the first ten. */
  function GenreStatistics(books: seq<Book>): (r: seq<GenreStats>)
    ensures |r| <= GenresShown
  {
    var rows := GenreRows(books);
    Take(SortBy(Map(GroupKeys(rows, GenreText), GenreStatsOf(rows)), BookCountKey, true), GenresShown)
  }

  function TallyStats(rows: seq<Book>): Tally<string> -> GenreStats
  {
    (g: Tally<string>) => GenreStats(g.key, g.count, GenreViews(rows, g.key))
  }

  /** The statistics are the ten largest genre tallies, each with its views. */
  lemma GenreStatisticsAreTopTallies(books: seq<Book>)
    ensures GenreStatistics(books) == Map(TopTallies(GenreRows(books), GenreText, GenresShown), TallyStats(GenreRows(books)))
  {
    var rows := GenreRows(books);
    var ks := GroupKeys(rows, GenreText);
    var g := Tallies(rows, GenreText);
    assert Map(ks, GenreStatsOf(rows)) == Map(g, TallyStats(rows));
    SortByMap(g, TallyStats(rows), CountKey, BookCountKey, true);
    MapTake(SortBy(g, CountKey, true), TallyStats(rows), GenresShown);
  }

  /** The group of a non-empty genre is every book of that genre, and its views are theirs. */
  lemma GenreGroup(books: seq<Book>, genre: string)
    ensures GroupSize(GenreRows(books), GenreText, genre) >= 1 ==> genre != []
    ensures genre != [] ==>
      GroupSize(GenreRows(books), GenreText, genre) == Count(books, OfGenre(genre)) &&
      GenreViews(GenreRows(books), genre) == Sum(Filter(books, OfGenre(genre)), ViewsOf)
  {
    var rows := GenreRows(books);
    if GroupSize(rows, GenreText, genre) >= 1 {
      GroupWitness(rows, GenreText, genre);
    }
    if genre != [] {
      GroupSizeAs(rows, GenreText, genre, OfGenre(genre));
      CountFilter(books, HasGenre, OfGenre(genre), OfGenre(genre));
      FilterFilterAs(books, HasGenre, OfGenre(genre), OfGenre(genre));
    }
  }

  /**
   * Tallies `g` are at most ten distinct non-empty genres, largest first,
   * each counting the books of its genre, with their views.
   */
  ghost predicate TopGenreCounts(books: seq<Book>, g: seq<Tally<string>>)
  {
    |g| <= GenresShown && DistinctKeys(g) && LargestFirst(g) &&
    forall i :: 0 <= i < |g| ==>
      g[i].key != [] && g[i].count == Count(books, OfGenre(g[i].key)) && g[i].count >= 1 &&
      GenreViews(GenreRows(books), g[i].key) == Sum(Filter(books, OfGenre(g[i].key)), ViewsOf)
  }

  /** A genre with books that is missing from `g` means ten tallies, none smaller. */
  ghost predicate TopGenresKept(books: seq<Book>, g: seq<Tally<string>>)
  {
    forall b :: b in books && HasGenre(b) && GenreText(b) !in KeysOf(g) ==>
      |g| == GenresShown && forall i :: 0 <= i < |g| ==> g[i].count >= Count(books, OfGenre(GenreText(b)))
  }

  /** What the grouping proves of the largest genre groups, said of the book table. */
  lemma TopGenreTallies(books: seq<Book>)
    ensures var g := TopTallies(GenreRows(books), GenreText, GenresShown);
      TopGenreCounts(books, g) && TopGenresKept(books, g)
  {
    var rows := GenreRows(books);
    var g := TopTallies(rows, GenreText, GenresShown);
    TopTalliesSpec(rows, GenreText, GenresShown);
    forall i | 0 <= i < |g|
      ensures g[i].key != [] && g[i].count == Count(books, OfGenre(g[i].key))
      ensures GenreViews(rows, g[i].key) == Sum(Filter(books, OfGenre(g[i].key)), ViewsOf)
    {
      assert g[i] in g;
      GenreGroup(books, g[i].key);
    }
    forall b | b in books && HasGenre(b) && GenreText(b) !in KeysOf(g)
      ensures |g| == GenresShown && forall i :: 0 <= i < |g| ==> g[i].count >= Count(books, OfGenre(GenreText(b)))
    {
      assert b in rows;
      GenreGroup(books, GenreText(b));
      forall i | 0 <= i < |g|
        ensures g[i].count >= Count(books, OfGenre(GenreText(b)))
      {
        assert g[i] in g;
      }
    }
  }

  /** Statistics built entry by entry from such tallies list what the tallies list. */
  lemma StatsOfTallies(books: seq<Book>, g: seq<Tally<string>>, r: seq<GenreStats>)
    requires |r| == |g|
    requires forall i :: 0 <= i < |g| ==>
      r[i].genre == g[i].key && r[i].bookCount == g[i].count && r[i].totalViews == GenreViews(GenreRows(books), g[i].key)
    requires TopGenreCounts(books, g)
    ensures |r| <= GenresShown &&
      (forall i, j :: 0 <= i < j < |r| ==> r[i].genre != r[j].genre) &&
      (forall i, j :: 0 <= i < j < |r| ==> r[i].bookCount >= r[j].bookCount) &&
      (forall i :: 0 <= i < |r| ==>
        r[i].genre != [] && r[i].bookCount == Count(books, OfGenre(r[i].genre)) && r[i].bookCount >= 1 &&
        r[i].totalViews == Sum(Filter(books, OfGenre(r[i].genre)), ViewsOf))
  {
  }

  /** A genre missing from such statistics is missing from the tallies, so none listed is smaller. */
  lemma StatsKeepLargest(books: seq<Book>, g: seq<Tally<string>>, r: seq<GenreStats>)
    requires |r| == |g|
    requires forall i :: 0 <= i < |g| ==> r[i].genre == g[i].key && r[i].bookCount == g[i].count
    requires TopGenresKept(books, g)
    ensures forall b :: b in books && HasGenre(b) && (forall i :: 0 <= i < |r| ==> r[i].genre != GenreText(b)) ==>
        |r| == GenresShown && forall i :: 0 <= i < |r| ==> r[i].bookCount >= Count(books, OfGenre(GenreText(b)))
  {
    forall b | b in books && HasGenre(b) && (forall i :: 0 <= i < |r| ==> r[i].genre != GenreText(b))
      ensures |r| == GenresShown && forall i :: 0 <= i < |r| ==> r[i].bookCount >= Count(books, OfGenre(GenreText(b)))
    {
      KeysOfIndex(g, GenreText(b));
    }
  }

  /**
   * At most ten genres, none twice, each non-empty with its number of
   * books and the sum of their views (a null view count as 0), most books
   * first; and a genre with books that is left out means ten genres are
   * listed, none with fewer books.
   */
  lemma GenreStatisticsSpec(books: seq<Book>)
    ensures var r := GenreStatistics(books);
      |r| <= GenresShown &&
      (forall i, j :: 0 <= i < j < |r| ==> r[i].genre != r[j].genre) &&
      (forall i, j :: 0 <= i < j < |r| ==> r[i].bookCount >= r[j].bookCount) &&
      (forall i :: 0 <= i < |r| ==>
        r[i].genre != [] && r[i].bookCount == Count(books, OfGenre(r[i].genre)) && r[i].bookCount >= 1 &&
        r[i].totalViews == Sum(Filter(books, OfGenre(r[i].genre)), ViewsOf))
    ensures var r := GenreStatistics(books);
      forall b :: b in books && HasGenre(b) && (forall i :: 0 <= i < |r| ==> r[i].genre != GenreText(b)) ==>
        |r| == GenresShown && forall i :: 0 <= i < |r| ==> r[i].bookCount >= Count(books, OfGenre(GenreText(b)))
  {
    var g := TopTallies(GenreRows(books), GenreText, GenresShown);
    var r := GenreStatistics(books);
    GenreStatisticsAreTopTallies(books);
    assert forall i :: 0 <= i < |g| ==> r[i] == TallyStats(GenreRows(books))(g[i]);
    TopGenreTallies(books);
    StatsOfTallies(books, g, r);
    StatsKeepLargest(books, g, r);
  }

  // ---------------------------------------------------------------------------
  // Per-month statistics

  datatype YearMonth = YearMonth(year: int, month: int)

  datatype MonthlyStats = MonthlyStats(year: int, month: int, bookCount: int)

  function MonthOf(b: Book): YearMonth
  {
    if b.createdAt.Some? then YearMonth(b.createdAt.value.year, b.createdAt.value.month) else YearMonth(0, 0)
  }

  /** Created at or after `since` (six months before the request, a parameter here). */
  function CreatedSince(since: Time): Book -> bool
  {
    (b: Book) => b.createdAt.Some? && !BooksIndex.Earlier(b.createdAt.value, since)
  }

  function MonthRows(books: seq<Book>, since: Time): seq<Book>
  {
    Filter(books, CreatedSince(since))
  }

  function MonthStatsOf(rows: seq<Book>): YearMonth -> MonthlyStats
  {
    (m: YearMonth) => MonthlyStats(m.year, m.month, GroupSize(rows, MonthOf, m))
  }

  function MonthKey(s: MonthlyStats): Key
  {
    [IntAtom(s.year), IntAtom(s.month)]
  }

  /** Group the recent books by year and month, count, oldest month first. */
  function MonthlyStatistics(books: seq<Book>, since: Time): (r: seq<MonthlyStats>)
    ensures Sorted(r, MonthKey, false)
  {
    var rows := MonthRows(books, since);
    SortBySorted(Map(GroupKeys(rows, MonthOf), MonthStatsOf(rows)), MonthKey, false);
    SortBy(Map(GroupKeys(rows, MonthOf), MonthStatsOf(rows)), MonthKey, false)
  }

  function CreatedIn(since: Time, m: YearMonth): Book -> bool
  {
    (b: Book) => CreatedSince(since)(b) && MonthOf(b) == m
  }

  lemma MonthGroup(books: seq<Book>, since: Time, m: YearMonth)
    ensures GroupSize(MonthRows(books, since), MonthOf, m) == Count(books, CreatedIn(since, m))
  {
    var rows := MonthRows(books, since);
    GroupSizeAs(rows, MonthOf, m, CreatedIn(since, m));
    CountFilter(books, CreatedSince(since), CreatedIn(since, m), CreatedIn(since, m));
  }

  /** Each unsorted entry is the statistics of its own month. */
  lemma MonthListEntries(rows: seq<Book>, list: seq<MonthlyStats>)
    requires list == Map(GroupKeys(rows, MonthOf), MonthStatsOf(rows))
    ensures forall x :: x in list ==>
      YearMonth(x.year, x.month) in GroupKeys(rows, MonthOf) &&
      x == MonthStatsOf(rows)(YearMonth(x.year, x.month))
  {
    var ks := GroupKeys(rows, MonthOf);
    forall x | x in list
      ensures YearMonth(x.year, x.month) in ks && x == MonthStatsOf(rows)(YearMonth(x.year, x.month))
    {
      var i :| 0 <= i < |list| && list[i] == x;
      assert ks[i] in ks;
    }
  }

  /** The unsorted statistics list each month once. */
  lemma MonthListNoDup(rows: seq<Book>, list: seq<MonthlyStats>)
    requires list == Map(GroupKeys(rows, MonthOf), MonthStatsOf(rows))
    ensures NoDup(list)
  {
    var ks := GroupKeys(rows, MonthOf);
    forall i, j | 0 <= i < j < |list|
      ensures list[i] != list[j]
    {
      assert ks[i] != ks[j];
    }
  }

  /** No two unsorted entries share a (year, month) key. */
  lemma MonthKeysDistinct(rows: seq<Book>, list: seq<MonthlyStats>)
    requires list == Map(GroupKeys(rows, MonthOf), MonthStatsOf(rows))
    ensures forall x, y :: x in list && y in list && MonthKey(x) == MonthKey(y) ==> x == y
  {
    MonthListEntries(rows, list);
    forall x, y | x in list && y in list && MonthKey(x) == MonthKey(y)
      ensures x == y
    {
      assert MonthKey(x)[0] == IntAtom(x.year) && MonthKey(x)[1] == IntAtom(x.month);
      assert MonthKey(y)[0] == IntAtom(y.year) && MonthKey(y)[1] == IntAtom(y.month);
    }
  }

  /** Every unsorted entry counts the books created in its month since `since`. */
  lemma MonthListCounts(books: seq<Book>, since: Time, list: seq<MonthlyStats>)
    requires list == Map(GroupKeys(MonthRows(books, since), MonthOf), MonthStatsOf(MonthRows(books, since)))
    ensures forall x :: x in list ==>
      x.bookCount == Count(books, CreatedIn(since, YearMonth(x.year, x.month))) && x.bookCount >= 1
  {
    var rows := MonthRows(books, since);
    MonthListEntries(rows, list);
    forall x | x in list
      ensures x.bookCount == Count(books, CreatedIn(since, YearMonth(x.year, x.month))) && x.bookCount >= 1
    {
      var m := YearMonth(x.year, x.month);
      GroupSizePositive(rows, MonthOf, m);
      MonthGroup(books, since, m);
    }
  }

  /** Every recent book's month has an unsorted entry. */
  lemma MonthListCovers(rows: seq<Book>, list: seq<MonthlyStats>)
    requires list == Map(GroupKeys(rows, MonthOf), MonthStatsOf(rows))
    ensures forall b :: b in rows ==> MonthStatsOf(rows)(MonthOf(b)) in list
  {
    var ks := GroupKeys(rows, MonthOf);
    forall b | b in rows
      ensures MonthStatsOf(rows)(MonthOf(b)) in list
    {
      MapMember(rows, MonthOf, b);
      var i :| 0 <= i < |ks| && ks[i] == MonthOf(b);
      assert list[i] == MonthStatsOf(rows)(MonthOf(b));
    }
  }

  /** Sorting entries with distinct keys by (year, month) leaves them strictly ascending. */
  lemma MonthsAscending(list: seq<MonthlyStats>, r: seq<MonthlyStats>)
    requires r == SortBy(list, MonthKey, false)
    requires NoDup(list)
    requires forall x, y :: x in list && y in list && MonthKey(x) == MonthKey(y) ==> x == y
    ensures forall i, j :: 0 <= i < j < |r| ==>
      r[i].year < r[j].year || (r[i].year == r[j].year && r[i].month < r[j].month)
  {
    SortByMembers(list, MonthKey, false);
    SortBySorted(list, MonthKey, false);
    SortByNoDup(list, MonthKey, false);
    forall i, j | 0 <= i < j < |r|
      ensures MonthKey(r[i]) != MonthKey(r[j])
    {
      assert r[i] in r && r[j] in r;
    }
    SortedStrict(r, MonthKey, false);
    forall i, j | 0 <= i < j < |r|
      ensures r[i].year < r[j].year || (r[i].year == r[j].year && r[i].month < r[j].month)
    {
      PairKeyLt(r[i].year, r[i].month, r[j].year, r[j].month);
    }
  }

  /** The counts and the coverage of the unsorted list carry over to its sorted order. */
  lemma MonthsCarried(books: seq<Book>, since: Time, rows: seq<Book>, list: seq<MonthlyStats>, r: seq<MonthlyStats>)
    requires rows == MonthRows(books, since)
    requires forall x :: x in r <==> x in list
    requires forall x :: x in list ==>
      x.bookCount == Count(books, CreatedIn(since, YearMonth(x.year, x.month))) && x.bookCount >= 1
    requires forall b :: b in rows ==> MonthStatsOf(rows)(MonthOf(b)) in list
    ensures forall i :: 0 <= i < |r| ==>
      r[i].bookCount == Count(books, CreatedIn(since, YearMonth(r[i].year, r[i].month))) && r[i].bookCount >= 1
    ensures forall b :: b in books && CreatedSince(since)(b) ==>
      exists i :: 0 <= i < |r| && YearMonth(r[i].year, r[i].month) == MonthOf(b)
  {
    forall i | 0 <= i < |r|
      ensures r[i].bookCount == Count(books, CreatedIn(since, YearMonth(r[i].year, r[i].month))) && r[i].bookCount >= 1
    {
      assert r[i] in r;
    }
    forall b | b in books && CreatedSince(since)(b)
      ensures exists i :: 0 <= i < |r| && YearMonth(r[i].year, r[i].month) == MonthOf(b)
    {
      assert b in rows;
      var x := MonthStatsOf(rows)(MonthOf(b));
      assert x in r;
      var i :| 0 <= i < |r| && r[i] == x;
    }
  }

  /**
   * Months strictly ascending (by year, then month), each with the number
   * of books created in it since `since`, at least one; and every such
   * book's month is listed.
   */
  lemma MonthlyStatisticsSpec(books: seq<Book>, since: Time)
    ensures var r := MonthlyStatistics(books, since);
      (forall i, j :: 0 <= i < j < |r| ==>
        r[i].year < r[j].year || (r[i].year == r[j].year && r[i].month < r[j].month)) &&
      (forall i :: 0 <= i < |r| ==>
        r[i].bookCount == Count(books, CreatedIn(since, YearMonth(r[i].year, r[i].month))) && r[i].bookCount >= 1)
    ensures var r := MonthlyStatistics(books, since);
      forall b :: b in books && CreatedSince(since)(b) ==>
        exists i :: 0 <= i < |r| && YearMonth(r[i].year, r[i].month) == MonthOf(b)
  {
    var rows := MonthRows(books, since);
    var list := Map(GroupKeys(rows, MonthOf), MonthStatsOf(rows));
    var r := SortBy(list, MonthKey, false);
    assert r == MonthlyStatistics(books, since);
    MonthListNoDup(rows, list);
    MonthKeysDistinct(rows, list);
    MonthsAscending(list, r);
    MonthListCounts(books, since, list);
    MonthListCovers(rows, list);
    SortByMembers(list, MonthKey, false);
    MonthsCarried(books, since, rows, list, r);
  }

  // ---------------------------------------------------------------------------
  // The page

  /** The database calls of `OnGetAsync`, in order; the call numbered `k` is the k-th. */
  const DbCalls: nat := 14

  /** Whether the database call numbered `k` ran and returned, given which call fails, if any. */
  predicate Reached(failAt: Option<nat>, k: nat)
  {
    failAt.None? || k < failAt.value
  }

  predicate Fails(failAt: Option<nat>)
  {
    failAt.Some? && failAt.value < DbCalls
  }

  class DashboardPage {
    var totalBooks: int
    var totalAuthors: int
    var totalUsers: int
    var totalPublishers: int
    var totalReviews: int
    var totalFavorites: int
    var recentUsers: seq<User>
    var recentBooks: seq<Book>
    var recentReviews: seq<Review>
    var topViewedBooks: seq<Book>
    var topSearchTerms: seq<string>
    var topAuthors: seq<Author>
    var genreStatistics: seq<GenreStats>
    var monthlyStatistics: seq<MonthlyStats>

    constructor ()
      ensures totalBooks == 0 && totalAuthors == 0 && totalUsers == 0
      ensures totalPublishers == 0 && totalReviews == 0 && totalFavorites == 0
      ensures recentUsers == [] && recentBooks == [] && recentReviews == [] && topViewedBooks == []
      ensures topSearchTerms == [] && topAuthors == [] && genreStatistics == [] && monthlyStatistics == []
    {
      totalBooks, totalAuthors, totalUsers := 0, 0, 0;
      totalPublishers, totalReviews, totalFavorites := 0, 0, 0;
      recentUsers, recentBooks, recentReviews, topViewedBooks := [], [], [], [];
      topSearchTerms, topAuthors, genreStatistics, monthlyStatistics := [], [], [], [];
    }

    /**
     * `OnGetAsync`. `failAt` names the database call that throws, if any
     * (0-5 the six counts, 6-13 the list queries). The counts that ran
     * before it keep their new values; the catch block empties every list.
     */
    method OnGet(t: Tables, since: Time, failAt: Option<nat>)
      modifies this
      ensures totalBooks == (if Reached(failAt, 0) then |t.books| else old(totalBooks))
      ensures totalAuthors == (if Reached(failAt, 1) then |t.authors| else old(totalAuthors))
      ensures totalUsers == (if Reached(failAt, 2) then |t.users| else old(totalUsers))
      ensures totalPublishers == (if Reached(failAt, 3) then |t.publishers| else old(totalPublishers))
      ensures totalReviews == (if Reached(failAt, 4) then |t.reviews| else old(totalReviews))
      ensures totalFavorites == (if Reached(failAt, 5) then |t.favorites| else old(totalFavorites))
      ensures Fails(failAt) ==>
        recentUsers == [] && recentBooks == [] && recentReviews == [] && topViewedBooks == [] &&
        topSearchTerms == [] && topAuthors == [] && genreStatistics == [] && monthlyStatistics == []
      ensures !Fails(failAt) ==>
        recentUsers == RecentUsers(t) && recentBooks == RecentBooks(t) &&
        recentReviews == RecentReviews(t) && topViewedBooks == TopViewedBooks(t) &&
        topSearchTerms == TopSearchTerms(t.searchLogs) && topAuthors == TopAuthors(t) &&
        genreStatistics == GenreStatistics(t.books) && monthlyStatistics == MonthlyStatistics(t.books, since)
    {
      SetTotals(t, failAt);
      if Fails(failAt) {
        ShowLists([], [], [], [], [], [], [], []);
      } else {
        ShowLists(RecentUsers(t), RecentBooks(t), RecentReviews(t), TopViewedBooks(t),
          TopSearchTerms(t.searchLogs), TopAuthors(t), GenreStatistics(t.books), MonthlyStatistics(t.books, since));
      }
    }

    /** The six counts, each set only when its call is reached. */
    method SetTotals(t: Tables, failAt: Option<nat>)
      modifies this
      ensures totalBooks == (if Reached(failAt, 0) then |t.books| else old(totalBooks))
      ensures totalAuthors == (if Reached(failAt, 1) then |t.authors| else old(totalAuthors))
      ensures totalUsers == (if Reached(failAt, 2) then |t.users| else old(totalUsers))
      ensures totalPublishers == (if Reached(failAt, 3) then |t.publishers| else old(totalPublishers))
      ensures totalReviews == (if Reached(failAt, 4) then |t.reviews| else old(totalReviews))
      ensures totalFavorites == (if Reached(failAt, 5) then |t.favorites| else old(totalFavorites))
      ensures recentUsers == old(recentUsers) && recentBooks == old(recentBooks)
      ensures recentReviews == old(recentReviews) && topViewedBooks == old(topViewedBooks)
      ensures topSearchTerms == old(topSearchTerms) && topAuthors == old(topAuthors)
      ensures genreStatistics == old(genreStatistics) && monthlyStatistics == old(monthlyStatistics)
    {
      if Reached(failAt, 0) { totalBooks := |t.books|; }
      if Reached(failAt, 1) { totalAuthors := |t.authors|; }
      if Reached(failAt, 2) { totalUsers := |t.users|; }
      if Reached(failAt, 3) { totalPublishers := |t.publishers|; }
      if Reached(failAt, 4) { totalReviews := |t.reviews|; }
      if Reached(failAt, 5) { totalFavorites := |t.favorites|; }
    }

    method ShowLists(users: seq<User>, books: seq<Book>, reviews: seq<Review>, viewed: seq<Book>,
                     terms: seq<string>, authors: seq<Author>, genres: seq<GenreStats>, months: seq<MonthlyStats>)
      modifies this
      ensures totalBooks == old(totalBooks) && totalAuthors == old(totalAuthors) && totalUsers == old(totalUsers)
      ensures totalPublishers == old(totalPublishers) && totalReviews == old(totalReviews)
      ensures totalFavorites == old(totalFavorites)
      ensures recentUsers == users && recentBooks == books && recentReviews == reviews && topViewedBooks == viewed
      ensures topSearchTerms == terms && topAuthors == authors && genreStatistics == genres && monthlyStatistics == months
    {
      recentUsers, recentBooks, recentReviews, topViewedBooks := users, books, reviews, viewed;
      topSearchTerms, topAuthors, genreStatistics, monthlyStatistics := terms, authors, genres, months;
    }
  }
}
