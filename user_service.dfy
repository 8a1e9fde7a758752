// Services/UserService.cs: a user's profile with its counts, the user's
// favourites, reviews, searches and added books a page at a time, and the
// three account operations that write: profile update, password change and
// removal of one favourite.
module UserService {
  import opened Seqs
  import opened Entities
  import opened Schema
  import opened Sorting
  import opened Store
  import opened Favorites
  import opened BookService
  import opened AuthorService

  // ---------------------------------------------------------------------------
  // GetUserProfileAsync

  /** `UserProfileDto`; the three statistics of added books are null unless the user added a book. */
  datatype UserProfile = UserProfile(
    userId: int,
    username: string,
    email: string,
    fullName: Option<string>,
    createdAt: Option<Time>,
    isActive: Option<bool>,
    favoriteBooksCount: nat,
    reviewsCount: nat,
    repliesCount: nat,
    searchHistoryCount: nat,
    lastLoginTime: Option<Time>,
    booksAddedCount: Option<int>,
    totalViewsOfAddedBooks: Option<int>,
    totalFavoritesOfAddedBooks: Option<int>)

  predicate AddedBy(b: Book, userId: int)
  {
    b.adminId == Some(userId)
  }

  /** `user.Books`: the books whose `AdminId` is the user, in table order. */
  function AddedBooks(t: Tables, userId: int): seq<Book>
  {
    Filter(t.books, (b: Book) => AddedBy(b, userId))
  }

  function TopLevelReviewsBy(t: Tables, userId: int): nat
  {
    Count(t.reviews, (r: Review) => r.userId == userId && r.parentReviewId.None?)
  }

  function RepliesBy(t: Tables, userId: int): nat
  {
    Count(t.reviews, (r: Review) => r.userId == userId && r.parentReviewId.Some?)
  }

  /** The user's `LOGIN` activity rows. */
  function Logins(t: Tables, userId: int): seq<ActivityLog>
  {
    Filter(t.activityLogs, (l: ActivityLog) => l.userId == userId && l.activityType == "LOGIN")
  }

  /** `ActivityTime` sorted by PostgreSQL: a null time is the largest, so it comes first when descending. */
  function ActivityKey(l: ActivityLog): Key
  {
    TimeKey(l.activityTime, true)
  }

  /** `OrderByDescending(ActivityTime).FirstOrDefault()`, then its `ActivityTime`. */
  function LastLogin(t: Tables, userId: int): Option<Time>
  {
    var sorted := SortBy(Logins(t, userId), ActivityKey, true);
    if sorted == [] then None else sorted[0].activityTime
  }

  /** The profile of a user, or none for an unknown id. */
  function GetUserProfile(t: Tables, userId: int): (r: Option<UserProfile>)
    ensures r.Some? <==> userId in UserIds(t.users)
    ensures r.Some? ==> r.value.userId == userId
  {
    var i := FindUser(t.users, userId);
    if i.None? then None
    else
      var u := t.users[i.value];
      var added := AddedBooks(t, userId);
      var ids := BookIdList(added);
      var admin := added != [];
      Some(UserProfile(
        u.userId, u.username, u.email, u.fullName, u.createdAt, u.isActive,
        Count(t.favorites, (f: FavoriteBook) => f.userId == userId),
        TopLevelReviewsBy(t, userId),
        RepliesBy(t, userId),
        Count(t.searchLogs, (l: SearchLog) => l.userId == Some(userId)),
        LastLogin(t, userId),
        if admin then Some(|added|) else None,
        if admin then Some(Sum(added, ViewsOf)) else None,
        if admin then Some(Count(t.favorites, (f: FavoriteBook) => f.bookId in ids)) else None))
  }

  /** The profile shows the account columns of the row. */
  predicate ShowsRow(p: UserProfile, u: User)
  {
    p.userId == u.userId && p.username == u.username && p.email == u.email &&
    p.fullName == u.fullName && p.createdAt == u.createdAt && p.isActive == u.isActive
  }

  /** A profile exists exactly for a known user, and shows that user's row. */
  lemma GetUserProfileSpec(t: Tables, userId: int)
    ensures GetUserProfile(t, userId).Some? <==> userId in UserIds(t.users)
    ensures var p := GetUserProfile(t, userId);
      p.Some? ==> exists u :: u in t.users && u.userId == userId && ShowsRow(p.value, u)
  {
    var i := FindUser(t.users, userId);
    if i.Some? {
      assert t.users[i.value] in t.users;
    }
  }

  /** Every review a user wrote is either top-level or a reply. */
  lemma {:induction false} UserReviewSplit(reviews: seq<Review>, userId: int)
    ensures Count(reviews, (r: Review) => r.userId == userId && r.parentReviewId.None?) +
      Count(reviews, (r: Review) => r.userId == userId && r.parentReviewId.Some?) ==
      Count(reviews, (r: Review) => r.userId == userId)
  {
    if reviews != [] {
      UserReviewSplit(reviews[1..], userId);
    }
  }

  /** ReviewsCount and RepliesCount together count every review of the user. */
  lemma ProfileReviewsSplit(t: Tables, userId: int)
    ensures var p := GetUserProfile(t, userId);
      p.Some? ==> p.value.reviewsCount + p.value.repliesCount == Count(t.reviews, (r: Review) => r.userId == userId)
  {
    UserReviewSplit(t.reviews, userId);
  }

  /**
   * The statistics of added books are all present exactly when the user
   * added a book; BooksAddedCount counts those books, and the favourites of
   * them add up to the sum of their favourite counts.
   */
  lemma ProfileAdminStats(t: Tables, userId: int)
    requires BooksOk(t.books)
    ensures var p := GetUserProfile(t, userId);
      p.Some? ==> (p.value.booksAddedCount.Some? <==> exists b :: b in t.books && b.adminId == Some(userId))
    ensures var p := GetUserProfile(t, userId);
      p.Some? ==> (p.value.booksAddedCount.Some? <==> p.value.totalViewsOfAddedBooks.Some?) &&
                  (p.value.booksAddedCount.Some? <==> p.value.totalFavoritesOfAddedBooks.Some?)
    ensures var p := GetUserProfile(t, userId);
      p.Some? && p.value.booksAddedCount.Some? ==>
        p.value.booksAddedCount.value == Count(t.books, (b: Book) => AddedBy(b, userId)) &&
        p.value.totalViewsOfAddedBooks.value == Sum(AddedBooks(t, userId), ViewsOf) &&
        p.value.totalFavoritesOfAddedBooks.value == Sum(AddedBooks(t, userId), FavoritesOf(t))
  {
    var p := GetUserProfile(t, userId);
    if p.Some? {
      var added := AddedBooks(t, userId);
      var ids := BookIdList(added);
      assert p.value.booksAddedCount == (if added != [] then Some(|added|) else None);
      assert p.value.totalViewsOfAddedBooks == (if added != [] then Some(Sum(added, ViewsOf)) else None);
      assert p.value.totalFavoritesOfAddedBooks ==
        (if added != [] then Some(Count(t.favorites, (f: FavoriteBook) => f.bookId in ids)) else None);
      if exists b :: b in t.books && b.adminId == Some(userId) {
        var b :| b in t.books && b.adminId == Some(userId);
        assert b in added;
      }
      assert KeysDistinct(t.books, BookKey);
      FilterKeysDistinct(t.books, BookKey, (b: Book) => AddedBy(b, userId));
      SumFavorites(t, added);
    }
  }

  /**
   * LastLoginTime is the time of one of the user's LOGIN rows, none of which
   * is later; PostgreSQL puts a null time first when sorting descending, so
   * one LOGIN row without a time makes LastLoginTime null.
   */
  lemma LastLoginSpec(t: Tables, userId: int)
    ensures LastLogin(t, userId).Some? ==>
      exists l :: IsLogin(t, userId, l) && l.activityTime == LastLogin(t, userId) && LatestLogin(t, userId, l)
    ensures (exists l :: IsLogin(t, userId, l) && l.activityTime.None?) ==> LastLogin(t, userId).None?
  {
    var logins := Logins(t, userId);
    if logins != [] {
      SortByFirst(logins, ActivityKey, true);
      var m := SortBy(logins, ActivityKey, true)[0];
      assert IsLogin(t, userId, m);
      if exists l :: IsLogin(t, userId, l) && l.activityTime.None? {
        var l :| IsLogin(t, userId, l) && l.activityTime.None?;
        assert l in logins;
        NullLastIsLargest(m.activityTime);
      }
    }
  }

  /** A `LOGIN` row of the user. */
  predicate IsLogin(t: Tables, userId: int, l: ActivityLog)
  {
    l in t.activityLogs && l.userId == userId && l.activityType == "LOGIN"
  }

  /** No `LOGIN` row of the user sorts after `l` by time. */
  ghost predicate LatestLogin(t: Tables, userId: int, l: ActivityLog)
  {
    forall l' :: IsLogin(t, userId, l') ==> !Before(ActivityKey, true, l', l)
  }

  /** A timestamp sorts before a null one in PostgreSQL. */
  lemma NullLastIsLargest(x: Option<Time>)
    ensures x.Some? ==> KeyLt(TimeKey(x, true), TimeKey(None, true))
  {
    if x.Some? {
      assert TimeKey(x, true)[0] == IntAtom(x.value.year);
      assert AtomLt(IntAtom(x.value.year), NullLast);
    }
  }

  // ---------------------------------------------------------------------------
  // GetUserFavoriteBooksAsync

  /** `BookCardDto` as this query fills it: the favourite's book, flagged favourite, with the date it was favourited. */
  datatype FavoriteCard = FavoriteCard(
    bookId: int,
    title: string,
    authorName: string,
    authorId: Option<int>,
    genre: Option<string>,
    price: Option<real>,
    urlImage: Option<string>,
    viewCount: int,
    averageRating: real,
    reviewCount: nat,
    isFavorite: bool,
    favoriteDate: Option<Time>)

  /** The inner join of favourites with their books: a favourite whose book is missing yields no row. */
  function FavoriteRows(t: Tables, favs: seq<FavoriteBook>): (r: seq<(FavoriteBook, Book)>)
    ensures |r| <= |favs|
    ensures forall row :: row in r ==> row.0 in favs && row.1 in t.books && row.1.bookId == row.0.bookId
  {
    if favs == [] then []
    else
      var i := FindBook(t.books, favs[0].bookId);
      var rest := FavoriteRows(t, favs[1..]);
      if i.None? then rest else [(favs[0], t.books[i.value])] + rest
  }

  function FavoriteKey(row: (FavoriteBook, Book)): Key
  {
    TimeKey(row.0.createdAt, true)
  }

  function FavoriteCardOf(t: Tables): ((FavoriteBook, Book)) -> FavoriteCard
  {
    (row: (FavoriteBook, Book)) =>
      var b := row.1;
      var author := AuthorNameOf(t, b);
      FavoriteCard(b.bookId, b.title, if author.Some? then author.value else Unknown, b.authorId,
        b.genre, b.price, b.urlImage, OrZero(b.viewCount), BookAverage(t, b.bookId),
        TopLevelReviewCount(t, b.bookId), true, row.0.createdAt)
  }

  /** The user's favourites joined with their books, most recently favourited first. */
  function FavoriteRowsOf(t: Tables, userId: int): seq<(FavoriteBook, Book)>
  {
    SortBy(FavoriteRows(t, Filter(t.favorites, (f: FavoriteBook) => f.userId == userId)), FavoriteKey, true)
  }

  /** One page of the user's favourite books, or nothing when PostgreSQL rejects the negative offset or limit. */
  function GetUserFavoriteBooks(t: Tables, userId: int, page: int, pageSize: int): (r: Option<seq<FavoriteCard>>)
    ensures r.Some? <==> Offset(page, pageSize) >= 0 && pageSize >= 0
    ensures r.Some? ==> |r.value| <= pageSize
  {
    var rows := DbPage(FavoriteRowsOf(t, userId), page, pageSize);
    if rows.None? then None else Some(Map(rows.value, FavoriteCardOf(t)))
  }

  /**
   * The page is answered unless its offset or size is negative; it holds at
   * most `pageSize` cards, each of a book the user favourited, flagged as a
   * favourite, dated by the favourite row, and naming the author or "unknown";
   * from page 1 on they are the cards of the run of the user's favourites,
   * most recent first, that starts at `(page - 1) * pageSize`, not empty
   * while that offset is below their number.
   */
  lemma GetUserFavoriteBooksSpec(t: Tables, userId: int, page: int, pageSize: int)
    ensures GetUserFavoriteBooks(t, userId, page, pageSize).Some? <==> Offset(page, pageSize) >= 0 && pageSize >= 0
    ensures var r := GetUserFavoriteBooks(t, userId, page, pageSize);
      r.Some? ==> |r.value| <= pageSize && forall c :: c in r.value ==> c.isFavorite && FavoriteCardOfUser(t, userId, c)
    ensures page >= 1 && pageSize >= 0 ==>
      GetUserFavoriteBooks(t, userId, page, pageSize) == Some(Map(Window(FavoriteRowsOf(t, userId), page, pageSize), FavoriteCardOf(t)))
    ensures page >= 1 && pageSize > 0 && (page - 1) * pageSize < |FavoriteRowsOf(t, userId)| ==>
      |Window(FavoriteRowsOf(t, userId), page, pageSize)| > 0
  {
    if page >= 1 && pageSize >= 0 {
      DbPageWindow(FavoriteRowsOf(t, userId), page, pageSize);
    }
    var favs := Filter(t.favorites, (f: FavoriteBook) => f.userId == userId);
    var rows := FavoriteRows(t, favs);
    var r := GetUserFavoriteBooks(t, userId, page, pageSize);
    SortedPage(rows, FavoriteKey, true, page, pageSize);
    if r.Some? {
      var window := DbPage(FavoriteRowsOf(t, userId), page, pageSize).value;
      forall c | c in r.value
        ensures c.isFavorite && FavoriteCardOfUser(t, userId, c)
      {
        var k :| 0 <= k < |r.value| && r.value[k] == c;
        var row := window[k];
        assert row in window;
        assert c == FavoriteCardOf(t)(row);
        assert row.0 in t.favorites && row.1 in t.books;
        assert ShowsFavorite(t, c, row.0, row.1);
      }
    }
  }

  /** The card shows the book of the favourite, dated by it, naming the author or "unknown". */
  predicate ShowsFavorite(t: Tables, c: FavoriteCard, f: FavoriteBook, b: Book)
  {
    f.bookId == b.bookId && c.bookId == b.bookId && c.title == b.title && c.favoriteDate == f.createdAt &&
    c.authorName == (if AuthorOf(t, b).Some? then AuthorOf(t, b).value.authorName else Unknown)
  }

  /** The card shows one of the user's favourites. */
  ghost predicate FavoriteCardOfUser(t: Tables, userId: int, c: FavoriteCard)
  {
    exists f, b :: f in t.favorites && b in t.books && f.userId == userId && ShowsFavorite(t, c, f, b)
  }

  /** The page lists the most recently favourited first. */
  lemma FavoritePageOrder(t: Tables, userId: int, page: int, pageSize: int)
    ensures var rows := DbPage(FavoriteRowsOf(t, userId), page, pageSize);
      rows.Some? ==> Sorted(rows.value, FavoriteKey, true)
  {
    var favs := Filter(t.favorites, (f: FavoriteBook) => f.userId == userId);
    SortedPage(FavoriteRows(t, favs), FavoriteKey, true, page, pageSize);
  }

  /** When every favourite's book exists, the join drops no favourite. */
  lemma {:induction false} FavoriteRowsComplete(t: Tables, favs: seq<FavoriteBook>)
    requires forall f :: f in favs ==> f.bookId in BookIds(t.books)
    ensures |FavoriteRows(t, favs)| == |favs|
  {
    if favs != [] {
      assert favs[0] in favs;
      FavoriteRowsComplete(t, favs[1..]);
    }
  }

  /** On a consistent database the user's favourite list has one row per favourite of the user. */
  lemma FavoriteRowsOfComplete(t: Tables, userId: int)
    requires Valid(t)
    ensures |FavoriteRowsOf(t, userId)| == Count(t.favorites, (f: FavoriteBook) => f.userId == userId)
  {
    FavoriteRowsComplete(t, Filter(t.favorites, (f: FavoriteBook) => f.userId == userId));
  }

  // ---------------------------------------------------------------------------
  // GetUserReviewsAsync, GetUserSearchHistoryAsync, GetUserAddedBooksAsync

  function ReviewTimeKey(r: Review): Key
  {
    TimeKey(r.createdAt, true)
  }

  function SearchTimeKey(l: SearchLog): Key
  {
    TimeKey(l.searchTime, true)
  }

  /** Every review and reply of the user, newest first. */
  function UserReviewsNewest(t: Tables, userId: int): seq<Review>
  {
    SortBy(Filter(t.reviews, (r: Review) => r.userId == userId), ReviewTimeKey, true)
  }

  /** Every search of the user, newest first. */
  function UserSearchesNewest(t: Tables, userId: int): seq<SearchLog>
  {
    SortBy(Filter(t.searchLogs, (l: SearchLog) => l.userId == Some(userId)), SearchTimeKey, true)
  }

  /** One page of the user's reviews and replies, newest first. */
  function GetUserReviews(t: Tables, userId: int, page: int, pageSize: int): (r: Option<seq<Review>>)
    ensures r.Some? <==> Offset(page, pageSize) >= 0 && pageSize >= 0
    ensures r.Some? ==> |r.value| <= pageSize
  {
    DbPage(UserReviewsNewest(t, userId), page, pageSize)
  }

  /** One page of the user's searches, newest first. */
  function GetUserSearchHistory(t: Tables, userId: int, page: int, pageSize: int): (r: Option<seq<SearchLog>>)
    ensures r.Some? <==> Offset(page, pageSize) >= 0 && pageSize >= 0
    ensures r.Some? ==> |r.value| <= pageSize
  {
    DbPage(UserSearchesNewest(t, userId), page, pageSize)
  }

  /** The page size `GetUserSearchHistoryAsync` uses when none is given. */
  const SearchHistoryPageSize := 20

  /** The card of a book the user added: author or "unknown", favourite count and creation time; no publisher. */
  function AddedCard(t: Tables, b: Book): BookCard
  {
    var author := AuthorNameOf(t, b);
    BookCard(b.bookId, b.title, None, None, b.genre, b.price, b.urlImage,
      Some(if author.Some? then author.value else Unknown), b.authorId, None,
      BookAverage(t, b.bookId), TopLevelReviewCount(t, b.bookId), FavoriteCount(t, b.bookId),
      false, b.createdAt, OrZero(b.viewCount))
  }

  function AddedCardOf(t: Tables): Book -> BookCard
  {
    (b: Book) => AddedCard(t, b)
  }

  /** The books the user added, newest first. */
  function AddedBooksNewest(t: Tables, userId: int): seq<Book>
  {
    SortBy(AddedBooks(t, userId), CreatedKey, true)
  }

  /** One page of the books the user added, newest first. */
  function GetUserAddedBooks(t: Tables, userId: int, page: int, pageSize: int): (r: Option<seq<BookCard>>)
    ensures r.Some? <==> Offset(page, pageSize) >= 0 && pageSize >= 0
    ensures r.Some? ==> |r.value| <= pageSize
  {
    var books := DbPage(AddedBooksNewest(t, userId), page, pageSize);
    if books.None? then None else Some(Map(books.value, AddedCardOf(t)))
  }

  /**
   * A page of the user's reviews: answered unless the offset or size is
   * negative, at most `pageSize`, only the user's, newest first; from page
   * 1 on it is the run of the user's reviews, newest first, that starts at
   * `(page - 1) * pageSize`, and it is not empty while that offset is below
   * their number.
   */
  lemma GetUserReviewsSpec(t: Tables, userId: int, page: int, pageSize: int)
    ensures GetUserReviews(t, userId, page, pageSize).Some? <==> Offset(page, pageSize) >= 0 && pageSize >= 0
    ensures var r := GetUserReviews(t, userId, page, pageSize);
      r.Some? ==> |r.value| <= pageSize && Sorted(r.value, ReviewTimeKey, true)
    ensures var r := GetUserReviews(t, userId, page, pageSize);
      r.Some? ==> forall x :: x in r.value ==> x in t.reviews && x.userId == userId
    ensures page >= 1 && pageSize >= 0 ==>
      GetUserReviews(t, userId, page, pageSize) == Some(Window(UserReviewsNewest(t, userId), page, pageSize))
    ensures page >= 1 && pageSize > 0 && (page - 1) * pageSize < |UserReviewsNewest(t, userId)| ==>
      |Window(UserReviewsNewest(t, userId), page, pageSize)| > 0
  {
    SortedPage(Filter(t.reviews, (r: Review) => r.userId == userId), ReviewTimeKey, true, page, pageSize);
    if page >= 1 && pageSize >= 0 {
      DbPageWindow(UserReviewsNewest(t, userId), page, pageSize);
    }
  }

  /**
   * A page of the user's searches: answered unless the offset or size is
   * negative, at most `pageSize`, only the user's, newest first; from page
   * 1 on it is the run of the user's searches, newest first, that starts at
   * `(page - 1) * pageSize`, and it is not empty while that offset is below
   * their number.
   */
  lemma GetUserSearchHistorySpec(t: Tables, userId: int, page: int, pageSize: int)
    ensures GetUserSearchHistory(t, userId, page, pageSize).Some? <==> Offset(page, pageSize) >= 0 && pageSize >= 0
    ensures var r := GetUserSearchHistory(t, userId, page, pageSize);
      r.Some? ==> |r.value| <= pageSize && Sorted(r.value, SearchTimeKey, true)
    ensures var r := GetUserSearchHistory(t, userId, page, pageSize);
      r.Some? ==> forall x :: x in r.value ==> x in t.searchLogs && x.userId == Some(userId)
    ensures page >= 1 && pageSize >= 0 ==>
      GetUserSearchHistory(t, userId, page, pageSize) == Some(Window(UserSearchesNewest(t, userId), page, pageSize))
    ensures page >= 1 && pageSize > 0 && (page - 1) * pageSize < |UserSearchesNewest(t, userId)| ==>
      |Window(UserSearchesNewest(t, userId), page, pageSize)| > 0
  {
    SortedPage(Filter(t.searchLogs, (l: SearchLog) => l.userId == Some(userId)), SearchTimeKey, true, page, pageSize);
    if page >= 1 && pageSize >= 0 {
      DbPageWindow(UserSearchesNewest(t, userId), page, pageSize);
    }
  }

  /**
   * A page of the user's added books: answered unless the offset or size is
   * negative, at most `pageSize` cards of books the user added, each with
   * its favourite count; the cards are those of a newest-first run of the
   * user's books, and from page 1 on that run starts at
   * `(page - 1) * pageSize` and is not empty while that offset is below
   * their number.
   */
  lemma GetUserAddedBooksSpec(t: Tables, userId: int, page: int, pageSize: int)
    ensures GetUserAddedBooks(t, userId, page, pageSize).Some? <==> Offset(page, pageSize) >= 0 && pageSize >= 0
    ensures var r := GetUserAddedBooks(t, userId, page, pageSize);
      r.Some? ==> |r.value| <= pageSize && forall c :: c in r.value ==> AddedCardOfUser(t, userId, c)
    ensures var r := GetUserAddedBooks(t, userId, page, pageSize);
      var books := PageOf(AddedBooksNewest(t, userId), page, pageSize);
      r.Some? ==> r.value == Map(books, AddedCardOf(t)) && Sorted(books, CreatedKey, true)
    ensures page >= 1 && pageSize >= 0 ==>
      GetUserAddedBooks(t, userId, page, pageSize) == Some(Map(Window(AddedBooksNewest(t, userId), page, pageSize), AddedCardOf(t)))
    ensures page >= 1 && pageSize > 0 && (page - 1) * pageSize < |AddedBooksNewest(t, userId)| ==>
      |Window(AddedBooksNewest(t, userId), page, pageSize)| > 0
  {
    var sorted := AddedBooksNewest(t, userId);
    var books := PageOf(sorted, page, pageSize);
    SortBySorted(AddedBooks(t, userId), CreatedKey, true);
    SortByMembers(AddedBooks(t, userId), CreatedKey, true);
    PageSorted(sorted, CreatedKey, true, page, pageSize);
    PageBounds(sorted, page, pageSize);
    AddedCardsShowBooks(t, userId, books);
    if page >= 1 && pageSize >= 0 {
      DbPageWindow(sorted, page, pageSize);
    }
  }

  /** The cards of books the user added each show such a book. */
  lemma AddedCardsShowBooks(t: Tables, userId: int, books: seq<Book>)
    requires forall b :: b in books ==> b in t.books && AddedBy(b, userId)
    ensures forall c :: c in Map(books, AddedCardOf(t)) ==> AddedCardOfUser(t, userId, c)
  {
    var cards := Map(books, AddedCardOf(t));
    forall c | c in cards
      ensures AddedCardOfUser(t, userId, c)
    {
      var k :| 0 <= k < |cards| && cards[k] == c;
      assert books[k] in books;
      assert ShowsAdded(t, c, books[k]);
    }
  }

  /** The card shows the book with its favourite count and an author name, not flagged favourite and without a publisher. */
  predicate ShowsAdded(t: Tables, c: BookCard, b: Book)
  {
    c.bookId == b.bookId && c.favoriteCount == FavoriteCount(t, b.bookId) && c.authorName.Some? &&
    !c.isFavorited && c.publisherName.None?
  }

  /** The card shows a book the user added. */
  ghost predicate AddedCardOfUser(t: Tables, userId: int, c: BookCard)
  {
    exists b :: b in t.books && b.adminId == Some(userId) && ShowsAdded(t, c, b)
  }

  // ---------------------------------------------------------------------------
  // UpdateProfileAsync

  /** Another user already holds the email. */
  predicate EmailTaken(t: Tables, userId: int, email: string)
  {
    Any(t.users, (u: User) => u.email == email && u.userId != userId)
  }

  /** The state after `UpdateProfileAsync`, and its answer. */
  function UpdateProfileSpec(t: Tables, userId: int, fullName: string, email: string): (Tables, bool)
  {
    var i := FindUser(t.users, userId);
    if i.None? then (t, false)
    else if EmailTaken(t, userId, email) then (t, false)
    else (t.(users := t.users[i.value := t.users[i.value].(fullName := Some(fullName), email := email)]), true)
  }

  /** Sets the user's full name and email unless the user is unknown or another user has the email. */
  method UpdateProfile(ctx: Context, userId: int, fullName: string, email: string) returns (ok: bool)
    requires ctx.Valid()
    modifies ctx
    ensures (ctx.Db(), ok) == UpdateProfileSpec(old(ctx.Db()), userId, fullName, email)
    ensures ctx.Valid()
  {
    UpdateProfileKeepsValid(ctx.Db(), userId, fullName, email);
    var i := FindUser(ctx.users, userId);
    if i.None? {
      return false;
    }
    var taken := Any(ctx.users, (u: User) => u.email == email && u.userId != userId);
    if taken {
      return false;
    }
    ctx.users := ctx.users[i.value := ctx.users[i.value].(fullName := Some(fullName), email := email)];
    ok := true;
  }

  lemma UpdateProfileKeepsValid(t: Tables, userId: int, fullName: string, email: string)
    requires Valid(t)
    ensures Valid(UpdateProfileSpec(t, userId, fullName, email).0)
  {
    var i := FindUser(t.users, userId);
    if i.Some? && !EmailTaken(t, userId, email) {
      var u := t.users[i.value].(fullName := Some(fullName), email := email);
      forall j | 0 <= j < |t.users| && j != i.value
        ensures t.users[j].username != u.username && t.users[j].email != u.email
      {
        assert t.users[j].userId != userId;
      }
      ReplaceUserKeepsValid(t, i.value, u);
    }
  }

  /**
   * The update succeeds exactly when the user exists and no other user has
   * the email. A failure changes nothing; a success changes only that
   * user's full name and email.
   */
  lemma UpdateProfileOutcome(t: Tables, userId: int, fullName: string, email: string)
    requires UsersOk(t.users)
    ensures var (t', ok) := UpdateProfileSpec(t, userId, fullName, email);
      ok <==> userId in UserIds(t.users) && !exists u :: u in t.users && u.email == email && u.userId != userId
    ensures var (t', ok) := UpdateProfileSpec(t, userId, fullName, email);
      !ok ==> t' == t
    ensures var (t', ok) := UpdateProfileSpec(t, userId, fullName, email);
      ok ==> t' == t.(users := t'.users) && |t'.users| == |t.users| &&
             forall k :: 0 <= k < |t.users| ==> t'.users[k] == ProfileEdited(t.users[k], userId, fullName, email)
  {
    if exists u :: u in t.users && u.email == email && u.userId != userId {
      var u :| u in t.users && u.email == email && u.userId != userId;
      var k :| 0 <= k < |t.users| && t.users[k] == u;
    }
    if EmailTaken(t, userId, email) {
      var k :| 0 <= k < |t.users| && t.users[k].email == email && t.users[k].userId != userId;
      assert t.users[k] in t.users;
    }
  }

  /** The user row with the given id gets the new full name and email; every other row stays. */
  function ProfileEdited(u: User, userId: int, fullName: string, email: string): User
  {
    if u.userId == userId then u.(fullName := Some(fullName), email := email) else u
  }

  /** On a consistent database, after a successful update the profile shows the new name and email and nothing else differs. */
  lemma UpdateProfileThenProfile(t: Tables, userId: int, fullName: string, email: string)
    requires Valid(t)
    ensures var (t', ok) := UpdateProfileSpec(t, userId, fullName, email);
      ok ==> GetUserProfile(t', userId) == Some(GetUserProfile(t, userId).value.(fullName := Some(fullName), email := email))
  {
    var (t', ok) := UpdateProfileSpec(t, userId, fullName, email);
    if ok {
      var i := FindUser(t.users, userId).value;
      FindKeyUpdate(t.users, i, t.users[i].(fullName := Some(fullName), email := email), UserKey, userId);
    }
  }

  // ---------------------------------------------------------------------------
  // ChangePasswordAsync

  const ChangePasswordType := "CHANGE_PASSWORD"
  const ChangePasswordDetails := "User changed password"

  /**
   * The state after `ChangePasswordAsync`, and its answer. The stored hash
   * is compared with the current password as typed and the new password is
   * stored as typed; one activity row records the change.
   */
  function ChangePasswordSpec(t: Tables, userId: int, current: string, newPassword: string, now: Time): (Tables, bool)
  {
    var i := FindUser(t.users, userId);
    if i.None? then (t, false)
    else if t.users[i.value].passwordHash != current then (t, false)
    else
      var log := ActivityLog(t.nextId, userId, ChangePasswordType, Some(ChangePasswordDetails), Some(now));
      (t.(users := t.users[i.value := t.users[i.value].(passwordHash := newPassword)],
          activityLogs := t.activityLogs + [log],
          nextId := t.nextId + 1), true)
  }

  /** Replaces the user's password when the current one matches, then logs the change. */
  method ChangePassword(ctx: Context, userId: int, current: string, newPassword: string, now: Time) returns (ok: bool)
    requires ctx.Valid()
    modifies ctx
    ensures (ctx.Db(), ok) == ChangePasswordSpec(old(ctx.Db()), userId, current, newPassword, now)
    ensures ctx.Valid()
  {
    ChangePasswordKeepsValid(ctx.Db(), userId, current, newPassword, now);
    var i := FindUser(ctx.users, userId);
    if i.None? {
      return false;
    }
    if ctx.users[i.value].passwordHash != current {
      return false;
    }
    ctx.users := ctx.users[i.value := ctx.users[i.value].(passwordHash := newPassword)];
    var id := ctx.NewId();
    ctx.activityLogs := ctx.activityLogs + [ActivityLog(id, userId, ChangePasswordType, Some(ChangePasswordDetails), Some(now))];
    ok := true;
  }

  lemma ChangePasswordKeepsValid(t: Tables, userId: int, current: string, newPassword: string, now: Time)
    requires Valid(t)
    ensures Valid(ChangePasswordSpec(t, userId, current, newPassword, now).0)
  {
    var i := FindUser(t.users, userId);
    if i.Some? && t.users[i.value].passwordHash == current {
      var u := t.users[i.value].(passwordHash := newPassword);
      forall j | 0 <= j < |t.users| && j != i.value
        ensures t.users[j].username != u.username && t.users[j].email != u.email
      {
        assert t.users[j].userId != userId;
      }
      ReplaceUserKeepsValid(t, i.value, u);
      var t1 := t.(users := t.users[i.value := u]);
      KeySetUpdate(t.users, i.value, u, UserKey);
      InsertActivityLogKeepsValid(t1, ActivityLog(t.nextId, userId, ChangePasswordType, Some(ChangePasswordDetails), Some(now)));
    }
  }

  /**
   * The change succeeds exactly when the user exists and the stored value
   * equals the current password. A failure changes nothing; a success
   * stores the new password on that user only and appends exactly one
   * CHANGE_PASSWORD row for the user.
   */
  lemma ChangePasswordOutcome(t: Tables, userId: int, current: string, newPassword: string, now: Time)
    requires UsersOk(t.users)
    ensures ChangePasswordSpec(t, userId, current, newPassword, now).1 <==>
      exists u :: u in t.users && u.userId == userId && u.passwordHash == current
    ensures var (t', ok) := ChangePasswordSpec(t, userId, current, newPassword, now);
      !ok ==> t' == t
    ensures var (t', ok) := ChangePasswordSpec(t, userId, current, newPassword, now);
      ok ==> t' == t.(users := t'.users, activityLogs := t'.activityLogs, nextId := t'.nextId) &&
             |t'.users| == |t.users| &&
             forall k :: 0 <= k < |t.users| ==> t'.users[k] == PasswordSet(t.users[k], userId, newPassword)
    ensures var (t', ok) := ChangePasswordSpec(t, userId, current, newPassword, now);
      ok ==> t'.activityLogs == t.activityLogs + [ActivityLog(t.nextId, userId, ChangePasswordType, Some(ChangePasswordDetails), Some(now))]
  {
    if exists u :: u in t.users && u.userId == userId && u.passwordHash == current {
      var u :| u in t.users && u.userId == userId && u.passwordHash == current;
      var k :| 0 <= k < |t.users| && t.users[k] == u;
      var i := FindUser(t.users, userId).value;
      assert t.users[i].userId == t.users[k].userId;
    }
    var i := FindUser(t.users, userId);
    if i.Some? {
      assert t.users[i.value] in t.users;
    }
  }

  /** The user row with the given id gets the new password; every other row stays. */
  function PasswordSet(u: User, userId: int, newPassword: string): User
  {
    if u.userId == userId then u.(passwordHash := newPassword) else u
  }

  /** Changing the password and then changing it back restores the users table; two CHANGE_PASSWORD rows are left behind. */
  lemma ChangePasswordRoundTrip(t: Tables, userId: int, a: string, b: string, now1: Time, now2: Time)
    ensures var (t1, ok1) := ChangePasswordSpec(t, userId, a, b, now1);
      var (t2, ok2) := ChangePasswordSpec(t1, userId, b, a, now2);
      ok1 ==> ok2 && t2.users == t.users && |t2.activityLogs| == |t.activityLogs| + 2
  {
    var (t1, ok1) := ChangePasswordSpec(t, userId, a, b, now1);
    if ok1 {
      var i := FindUser(t.users, userId).value;
      FindKeyUpdate(t.users, i, t.users[i].(passwordHash := b), UserKey, userId);
      assert t1.users[i].(passwordHash := a) == t.users[i];
    }
  }

  // ---------------------------------------------------------------------------
  // RemoveFavoriteBookAsync

  /** The state after `RemoveFavoriteBookAsync`, and its answer. */
  function RemoveFavoriteSpec(t: Tables, userId: int, bookId: int): (Tables, bool)
  {
    var i := FindFavorite(t.favorites, userId, bookId);
    if i.None? then (t, false) else (t.(favorites := RemoveAt(t.favorites, i.value)), true)
  }

  /** Removes the user's favourite of the book, if there is one. */
  method RemoveFavoriteBook(ctx: Context, userId: int, bookId: int) returns (ok: bool)
    requires ctx.Valid()
    modifies ctx
    ensures (ctx.Db(), ok) == RemoveFavoriteSpec(old(ctx.Db()), userId, bookId)
    ensures ctx.Valid()
  {
    ghost var t := ctx.Db();
    var i := FindFavorite(ctx.favorites, userId, bookId);
    if i.None? {
      return false;
    }
    RemoveFavoriteKeepsValid(t, i.value);
    ctx.favorites := RemoveAt(ctx.favorites, i.value);
    ok := true;
  }

  /**
   * The removal succeeds exactly when the pair is a favourite; it then
   * removes that pair and no other, and touches no other table; a failure
   * changes nothing.
   */
  lemma RemoveFavoriteOutcome(t: Tables, userId: int, bookId: int)
    requires FavoritesOk(t.favorites)
    ensures RemoveFavoriteSpec(t, userId, bookId).1 <==> IsFavorite(t, userId, bookId)
    ensures var (t', ok) := RemoveFavoriteSpec(t, userId, bookId);
      !ok ==> t' == t
    ensures var (t', ok) := RemoveFavoriteSpec(t, userId, bookId);
      ok ==> t' == t.(favorites := t'.favorites) && FavPairs(t'.favorites) == FavPairs(t.favorites) - {(userId, bookId)}
  {
    FavPairsSpec(t.favorites, userId, bookId);
    var i := FindFavorite(t.favorites, userId, bookId);
    if i.Some? {
      FavPairsRemove(t.favorites, i.value);
    }
  }

  /** A successful removal leaves the database exactly as a favourite toggle by the same user on the same book would. */
  lemma RemoveFavoriteIsToggleOff(t: Tables, userId: int, bookId: int, now: Time)
    ensures var (t', ok) := RemoveFavoriteSpec(t, userId, bookId);
      var (t'', res) := ToggleSpec(t, SignedIn(Some(userId)), bookId, now);
      ok ==> t' == t'' && res == Toggled(false)
  {
  }
}
