// The rows of the SBooks PostgreSQL schema as values, and the snapshot of
// every table that the handlers read and write.
module Entities {
  import opened Seqs
  import opened Sorting

  /** A timestamp, ordered by year, month, day and then time of day. */
  datatype Time = Time(year: int, month: int, day: int, tick: int)

  datatype User = User(
    userId: int,
    username: string,
    passwordHash: string,
    email: string,
    fullName: Option<string>,
    isActive: Option<bool>,
    createdAt: Option<Time>)

  datatype Role = Role(roleId: int, roleName: string)

  /** A row of the `user_roles` join table. */
  datatype UserRole = UserRole(userId: int, roleId: int)

  datatype Author = Author(
    authorId: int,
    authorName: string,
    email: Option<string>,
    birthDate: Option<Time>,
    biography: Option<string>,
    sex: Option<string>)

  datatype Publisher = Publisher(
    publisherId: int,
    publisherName: string,
    address: Option<string>,
    website: Option<string>)

  /** `price` is the `numeric(10,2)` column as an exact number. */
  datatype Book = Book(
    bookId: int,
    title: string,
    description: Option<string>,
    publishedYear: Option<int>,
    genre: Option<string>,
    price: Option<real>,
    viewCount: Option<int>,
    urlImage: Option<string>,
    authorId: Option<int>,
    publisherId: Option<int>,
    adminId: Option<int>,
    createdAt: Option<Time>,
    updatedAt: Option<Time>)

  /** A top-level review has no parent; a reply has one and no rating. */
  datatype Review = Review(
    reviewId: int,
    bookId: int,
    userId: int,
    parentReviewId: Option<int>,
    commentText: Option<string>,
    likeCount: Option<int>,
    dislikeCount: Option<int>,
    createdAt: Option<Time>,
    updatedAt: Option<Time>,
    rating: Option<int>)

  /** `voteType` is 1 for a like and -1 for a dislike. */
  datatype ReviewVote = ReviewVote(userId: int, reviewId: int, voteType: int, createdAt: Option<Time>)

  datatype FavoriteBook = FavoriteBook(userId: int, bookId: int, createdAt: Option<Time>)

  datatype SearchLog = SearchLog(logId: int, userId: Option<int>, searchText: string, searchTime: Option<Time>)

  datatype ActivityLog = ActivityLog(
    logId: int,
    userId: int,
    activityType: string,
    details: Option<string>,
    activityTime: Option<Time>)

  /** Every table of the database at one instant. `nextId` stands for the identity sequences: it exceeds every key in use. */
  datatype Tables = Tables(
    users: seq<User>,
    roles: seq<Role>,
    userRoles: set<UserRole>,
    authors: seq<Author>,
    publishers: seq<Publisher>,
    books: seq<Book>,
    reviews: seq<Review>,
    votes: seq<ReviewVote>,
    favorites: seq<FavoriteBook>,
    searchLogs: seq<SearchLog>,
    activityLogs: seq<ActivityLog>,
    nextId: int)

  /** Who sent a request: an anonymous visitor, or a signed-in principal whose `UserId` claim parses to a number or not. */
  datatype Caller = Anonymous | SignedIn(claimId: Option<int>)

  /** `User.GetUserId()` of an authenticated caller; no id for anyone else. */
  function CallerId(c: Caller): Option<int>
  {
    if c.SignedIn? then c.claimId else None
  }

  const Int32Max: int := 0x7FFF_FFFF
  const Int32Min: int := -0x8000_0000

  /** C# unchecked `x + 1` on a 32-bit `int`. */
  function Inc32(x: int): (r: int)
    requires Int32Min <= x <= Int32Max
    ensures Int32Min <= r <= Int32Max
    ensures x < Int32Max ==> r == x + 1
    ensures x == Int32Max ==> r == Int32Min
  {
    if x == Int32Max then Int32Min else x + 1
  }

  /** `x ?? 0` for a nullable counter. */
  function OrZero(x: Option<int>): int
  {
    if x.Some? then x.value else 0
  }

  function RealOrZero(x: Option<real>): real
  {
    if x.Some? then x.value else 0.0
  }

  function IntAtom(x: int): Atom
  {
    Num(x as real)
  }

  /** A timestamp as a sort key; a null one sorts first in memory and last in the database. */
  function TimeKey(t: Option<Time>, nullsLast: bool): Key
  {
    if t.Some? then [IntAtom(t.value.year), IntAtom(t.value.month), IntAtom(t.value.day), IntAtom(t.value.tick)]
    else if nullsLast then [NullLast] else [NullFirst]
  }

  function OptIntKey(x: Option<int>, nullsLast: bool): Key
  {
    if x.Some? then [IntAtom(x.value)] else if nullsLast then [NullLast] else [NullFirst]
  }

  function OptStrKey(x: Option<string>, nullsLast: bool): Key
  {
    if x.Some? then [Str(x.value)] else if nullsLast then [NullLast] else [NullFirst]
  }

  /** A later timestamp sorts after an earlier one. */
  lemma TimeKeyOrder(a: Time, b: Time, nullsLast: bool)
    requires a.year < b.year || (a.year == b.year && a.month < b.month)
    ensures KeyLt(TimeKey(Some(a), nullsLast), TimeKey(Some(b), nullsLast))
  {
    var ka, kb := TimeKey(Some(a), nullsLast), TimeKey(Some(b), nullsLast);
    if a.year == b.year {
      assert ka[1..][0] == IntAtom(a.month) && kb[1..][0] == IntAtom(b.month);
      assert KeyLt(ka[1..], kb[1..]);
    }
  }
}
