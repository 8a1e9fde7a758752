// The integrity rules the database enforces (SbooksContext.OnModelCreating):
// primary keys, composite keys, unique indexes, the filtered unique index on
// top-level reviews, foreign keys, and the column ranges of 32-bit counters.
// The counter rule that ties a review's like/dislike counts to its vote rows
// is stated here too, but it is kept by the handlers, not by the database.
module Schema {
  import opened Seqs
  import opened Entities

  function UserKey(u: User): int { u.userId }
  function RoleKey(r: Role): int { r.roleId }
  function AuthorKey(a: Author): int { a.authorId }
  function PublisherKey(p: Publisher): int { p.publisherId }
  function BookKey(b: Book): int { b.bookId }
  function ReviewKey(r: Review): int { r.reviewId }

  function UserIds(users: seq<User>): set<int> { KeySet(users, UserKey) }
  function RoleIds(roles: seq<Role>): set<int> { KeySet(roles, RoleKey) }
  function AuthorIds(authors: seq<Author>): set<int> { KeySet(authors, AuthorKey) }
  function PublisherIds(publishers: seq<Publisher>): set<int> { KeySet(publishers, PublisherKey) }
  function BookIds(books: seq<Book>): set<int> { KeySet(books, BookKey) }
  function ReviewIds(reviews: seq<Review>): set<int> { KeySet(reviews, ReviewKey) }

  // ---------------------------------------------------------------------------
  // Row lookups (`FirstOrDefaultAsync` / `FindAsync`).

  function FindUser(users: seq<User>, id: int): Option<nat> { FindKey(users, UserKey, id) }
  function FindBook(books: seq<Book>, id: int): Option<nat> { FindKey(books, BookKey, id) }
  function FindReview(reviews: seq<Review>, id: int): Option<nat> { FindKey(reviews, ReviewKey, id) }
  function FindAuthor(authors: seq<Author>, id: int): Option<nat> { FindKey(authors, AuthorKey, id) }
  function FindPublisher(publishers: seq<Publisher>, id: int): Option<nat> { FindKey(publishers, PublisherKey, id) }

  // ---------------------------------------------------------------------------
  // Keys and unique indexes, table by table.

  predicate UsersOk(users: seq<User>)
  {
    forall i, j :: 0 <= i < j < |users| ==>
      users[i].userId != users[j].userId &&
      users[i].username != users[j].username &&
      users[i].email != users[j].email
  }

  predicate RolesOk(roles: seq<Role>)
  {
    forall i, j :: 0 <= i < j < |roles| ==>
      roles[i].roleId != roles[j].roleId && roles[i].roleName != roles[j].roleName
  }

  /** `authors_email_key`: PostgreSQL lets several rows hold a null email. */
  predicate AuthorsOk(authors: seq<Author>)
  {
    forall i, j :: 0 <= i < j < |authors| ==>
      authors[i].authorId != authors[j].authorId &&
      (authors[i].email.Some? && authors[j].email.Some? ==> authors[i].email != authors[j].email)
  }

  predicate PublishersOk(publishers: seq<Publisher>)
  {
    forall i, j :: 0 <= i < j < |publishers| ==> publishers[i].publisherId != publishers[j].publisherId
  }

  predicate InInt32(x: Option<int>)
  {
    x.Some? ==> Int32Min <= x.value <= Int32Max
  }

  predicate BooksOk(books: seq<Book>)
  {
    (forall i, j :: 0 <= i < j < |books| ==> books[i].bookId != books[j].bookId) &&
    (forall b :: b in books ==> InInt32(b.viewCount))
  }

  /** The like and dislike counters are 32-bit `int` columns. */
  predicate CountersInRange(reviews: seq<Review>)
  {
    forall r :: r in reviews ==> InInt32(r.likeCount) && InInt32(r.dislikeCount)
  }

  /** Primary key, the filtered index `unique_main_review_per_user_per_book`, and 32-bit counters. */
  predicate ReviewsOk(reviews: seq<Review>)
  {
    (forall i, j :: 0 <= i < j < |reviews| ==>
      reviews[i].reviewId != reviews[j].reviewId &&
      (reviews[i].parentReviewId.None? && reviews[j].parentReviewId.None? ==>
        (reviews[i].bookId, reviews[i].userId) != (reviews[j].bookId, reviews[j].userId))) &&
    CountersInRange(reviews)
  }

  /** Composite key `review_votes_pkey` (UserId, ReviewId). */
  predicate VotesOk(votes: seq<ReviewVote>)
  {
    forall i, j :: 0 <= i < j < |votes| ==>
      (votes[i].userId, votes[i].reviewId) != (votes[j].userId, votes[j].reviewId)
  }

  /** Composite key `favorite_books_pkey` (UserId, BookId). */
  predicate FavoritesOk(favorites: seq<FavoriteBook>)
  {
    forall i, j :: 0 <= i < j < |favorites| ==>
      (favorites[i].userId, favorites[i].bookId) != (favorites[j].userId, favorites[j].bookId)
  }

  predicate SearchLogsOk(logs: seq<SearchLog>)
  {
    forall i, j :: 0 <= i < j < |logs| ==> logs[i].logId != logs[j].logId
  }

  predicate ActivityLogsOk(logs: seq<ActivityLog>)
  {
    forall i, j :: 0 <= i < j < |logs| ==> logs[i].logId != logs[j].logId
  }

  // ---------------------------------------------------------------------------
  // Foreign keys, stated against the key sets of the referenced tables.

  predicate BookRefsOk(b: Book, userIds: set<int>, authorIds: set<int>, publisherIds: set<int>)
  {
    (b.authorId.Some? ==> b.authorId.value in authorIds) &&
    (b.publisherId.Some? ==> b.publisherId.value in publisherIds) &&
    (b.adminId.Some? ==> b.adminId.value in userIds)
  }

  predicate ReviewRefsOk(r: Review, userIds: set<int>, bookIds: set<int>, reviewIds: set<int>)
  {
    r.bookId in bookIds && r.userId in userIds &&
    (r.parentReviewId.Some? ==> r.parentReviewId.value in reviewIds)
  }

  predicate UserRolesRefsOk(userRoles: set<UserRole>, userIds: set<int>, roleIds: set<int>)
  {
    forall ur :: ur in userRoles ==> ur.userId in userIds && ur.roleId in roleIds
  }

  predicate BooksRefsOk(books: seq<Book>, userIds: set<int>, authorIds: set<int>, publisherIds: set<int>)
  {
    forall b :: b in books ==> BookRefsOk(b, userIds, authorIds, publisherIds)
  }

  /** A reply's parent is a row of the same table. */
  predicate ReviewsRefsOk(reviews: seq<Review>, userIds: set<int>, bookIds: set<int>)
  {
    forall r :: r in reviews ==> ReviewRefsOk(r, userIds, bookIds, ReviewIds(reviews))
  }

  predicate VotesRefsOk(votes: seq<ReviewVote>, reviewIds: set<int>, userIds: set<int>)
  {
    forall v :: v in votes ==> v.reviewId in reviewIds && v.userId in userIds
  }

  predicate FavoritesRefsOk(favorites: seq<FavoriteBook>, bookIds: set<int>, userIds: set<int>)
  {
    forall f :: f in favorites ==> f.bookId in bookIds && f.userId in userIds
  }

  predicate SearchLogsRefsOk(logs: seq<SearchLog>, userIds: set<int>)
  {
    forall l :: l in logs ==> l.userId.Some? ==> l.userId.value in userIds
  }

  predicate ActivityLogsRefsOk(logs: seq<ActivityLog>, userIds: set<int>)
  {
    forall l :: l in logs ==> l.userId in userIds
  }

  // ---------------------------------------------------------------------------
  // The identity sequence is ahead of every key in use.

  predicate UsersFresh(users: seq<User>, nextId: int) { forall u :: u in users ==> u.userId < nextId }
  predicate RolesFresh(roles: seq<Role>, nextId: int) { forall r :: r in roles ==> r.roleId < nextId }
  predicate AuthorsFresh(authors: seq<Author>, nextId: int) { forall a :: a in authors ==> a.authorId < nextId }
  predicate PublishersFresh(publishers: seq<Publisher>, nextId: int) { forall p :: p in publishers ==> p.publisherId < nextId }
  predicate BooksFresh(books: seq<Book>, nextId: int) { forall b :: b in books ==> b.bookId < nextId }
  predicate ReviewsFresh(reviews: seq<Review>, nextId: int) { forall r :: r in reviews ==> r.reviewId < nextId }
  predicate SearchLogsFresh(logs: seq<SearchLog>, nextId: int) { forall l :: l in logs ==> l.logId < nextId }
  predicate ActivityLogsFresh(logs: seq<ActivityLog>, nextId: int) { forall l :: l in logs ==> l.logId < nextId }

  /**
   * Every rule at once. Each conjunct names only the table it constrains and
   * the key sets it refers to, so an edit that keeps a table's keys leaves
   * the conjuncts about the other tables untouched.
   */
  predicate Valid(t: Tables)
  {
    UsersOk(t.users) && RolesOk(t.roles) && AuthorsOk(t.authors) && PublishersOk(t.publishers) &&
    BooksOk(t.books) && ReviewsOk(t.reviews) && VotesOk(t.votes) && FavoritesOk(t.favorites) &&
    SearchLogsOk(t.searchLogs) && ActivityLogsOk(t.activityLogs) &&
    UserRolesRefsOk(t.userRoles, UserIds(t.users), RoleIds(t.roles)) &&
    BooksRefsOk(t.books, UserIds(t.users), AuthorIds(t.authors), PublisherIds(t.publishers)) &&
    ReviewsRefsOk(t.reviews, UserIds(t.users), BookIds(t.books)) &&
    VotesRefsOk(t.votes, ReviewIds(t.reviews), UserIds(t.users)) &&
    FavoritesRefsOk(t.favorites, BookIds(t.books), UserIds(t.users)) &&
    SearchLogsRefsOk(t.searchLogs, UserIds(t.users)) &&
    ActivityLogsRefsOk(t.activityLogs, UserIds(t.users)) &&
    UsersFresh(t.users, t.nextId) && RolesFresh(t.roles, t.nextId) &&
    AuthorsFresh(t.authors, t.nextId) && PublishersFresh(t.publishers, t.nextId) &&
    BooksFresh(t.books, t.nextId) && ReviewsFresh(t.reviews, t.nextId) &&
    SearchLogsFresh(t.searchLogs, t.nextId) && ActivityLogsFresh(t.activityLogs, t.nextId)
  }

  function EmptyTables(): (t: Tables)
    ensures Valid(t)
  {
    Tables([], [], {}, [], [], [], [], [], [], [], [], 1)
  }

  // ---------------------------------------------------------------------------
  // Like and dislike counters.

  /** A like (`VoteType == 1`) on the given review. */
  function LikeOn(reviewId: int): ReviewVote -> bool
  {
    (v: ReviewVote) => v.reviewId == reviewId && v.voteType == 1
  }

  /** A dislike (`VoteType == -1`) on the given review. */
  function DislikeOn(reviewId: int): ReviewVote -> bool
  {
    (v: ReviewVote) => v.reviewId == reviewId && v.voteType == -1
  }

  function LikesOf(votes: seq<ReviewVote>, reviewId: int): nat
  {
    Count(votes, LikeOn(reviewId))
  }

  function DislikesOf(votes: seq<ReviewVote>, reviewId: int): nat
  {
    Count(votes, DislikeOn(reviewId))
  }

  /** Every vote is a like (1) or a dislike (-1). */
  predicate VoteTypesOk(votes: seq<ReviewVote>)
  {
    forall v :: v in votes ==> v.voteType == 1 || v.voteType == -1
  }

  /** Every review's counters (null read as 0) equal its votes of each kind. */
  predicate CountersFollow(reviews: seq<Review>, votes: seq<ReviewVote>)
  {
    forall r :: r in reviews ==>
      OrZero(r.likeCount) == LikesOf(votes, r.reviewId) && OrZero(r.dislikeCount) == DislikesOf(votes, r.reviewId)
  }

  /** The denormalised counters agree with the vote rows. */
  predicate CountersMatch(t: Tables)
  {
    VoteTypesOk(t.votes) && CountersFollow(t.reviews, t.votes)
  }

  // ---------------------------------------------------------------------------
  // Single-row edits that keep the database valid.

  lemma ReviewsOkUpdate(reviews: seq<Review>, i: nat, r: Review)
    requires ReviewsOk(reviews) && i < |reviews|
    requires r.reviewId == reviews[i].reviewId && r.bookId == reviews[i].bookId
    requires r.userId == reviews[i].userId && r.parentReviewId == reviews[i].parentReviewId
    requires InInt32(r.likeCount) && InInt32(r.dislikeCount)
    ensures ReviewsOk(reviews[i := r])
  {
    assert forall x :: x in reviews[i := r] ==> x in reviews || x == r;
  }

  lemma ReviewsOkAppend(reviews: seq<Review>, r: Review)
    requires ReviewsOk(reviews) && r.reviewId !in ReviewIds(reviews)
    requires InInt32(r.likeCount) && InInt32(r.dislikeCount)
    requires r.parentReviewId.None? ==>
      forall x :: x in reviews && x.parentReviewId.None? ==> (x.bookId, x.userId) != (r.bookId, r.userId)
    ensures ReviewsOk(reviews + [r])
  {
    var s := reviews + [r];
    assert forall x :: x in s ==> x in reviews || x == r;
    forall a, b | 0 <= a < b < |s|
      ensures s[a].reviewId != s[b].reviewId
      ensures s[a].parentReviewId.None? && s[b].parentReviewId.None? ==>
        (s[a].bookId, s[a].userId) != (s[b].bookId, s[b].userId)
    {
      assert s[a] in reviews;
      if b < |reviews| {
        assert s[a] == reviews[a] && s[b] == reviews[b];
      }
    }
  }

  /** Overwriting a review's non-key columns keeps the rules on the reviews table and its key set. */
  lemma ReviewsReplaceOk(reviews: seq<Review>, i: nat, r: Review, userIds: set<int>, bookIds: set<int>, nextId: int)
    requires ReviewsOk(reviews) && ReviewsRefsOk(reviews, userIds, bookIds) && ReviewsFresh(reviews, nextId)
    requires i < |reviews|
    requires r.reviewId == reviews[i].reviewId && r.bookId == reviews[i].bookId
    requires r.userId == reviews[i].userId && r.parentReviewId == reviews[i].parentReviewId
    requires InInt32(r.likeCount) && InInt32(r.dislikeCount)
    ensures var s := reviews[i := r];
      ReviewsOk(s) && ReviewsRefsOk(s, userIds, bookIds) && ReviewsFresh(s, nextId) &&
      ReviewIds(s) == ReviewIds(reviews)
  {
    var s := reviews[i := r];
    ReviewsOkUpdate(reviews, i, r);
    KeySetUpdate(reviews, i, r, ReviewKey);
    assert reviews[i] in reviews;
    forall x | x in s
      ensures ReviewRefsOk(x, userIds, bookIds, ReviewIds(s)) && x.reviewId < nextId
    {
      var k :| 0 <= k < |s| && s[k] == x;
      assert x == r || x == reviews[k];
      assert reviews[k] in reviews;
    }
  }

  /** Appending a review under the next identity value keeps the rules on the reviews table and adds its key. */
  lemma ReviewsAppendOk(reviews: seq<Review>, r: Review, userIds: set<int>, bookIds: set<int>, nextId: int)
    requires ReviewsOk(reviews) && ReviewsRefsOk(reviews, userIds, bookIds) && ReviewsFresh(reviews, nextId)
    requires r.reviewId == nextId && ReviewRefsOk(r, userIds, bookIds, ReviewIds(reviews))
    requires InInt32(r.likeCount) && InInt32(r.dislikeCount)
    requires r.parentReviewId.None? ==>
      forall x :: x in reviews && x.parentReviewId.None? ==> (x.bookId, x.userId) != (r.bookId, r.userId)
    ensures var s := reviews + [r];
      ReviewsOk(s) && ReviewsRefsOk(s, userIds, bookIds) && ReviewsFresh(s, nextId + 1) &&
      ReviewIds(s) == ReviewIds(reviews) + {nextId}
  {
    var s := reviews + [r];
    KeySetAppend(reviews, r, ReviewKey);
    ReviewsOkAppend(reviews, r);
    forall x | x in s
      ensures ReviewRefsOk(x, userIds, bookIds, ReviewIds(s)) && x.reviewId < nextId + 1
    {
      if x != r {
        assert x in reviews;
      }
    }
  }

  /** Overwriting a review's non-key columns (text, rating, counters, times). */
  lemma ReplaceReviewKeepsValid(t: Tables, i: nat, r: Review)
    requires Valid(t) && i < |t.reviews|
    requires r.reviewId == t.reviews[i].reviewId && r.bookId == t.reviews[i].bookId
    requires r.userId == t.reviews[i].userId && r.parentReviewId == t.reviews[i].parentReviewId
    requires InInt32(r.likeCount) && InInt32(r.dislikeCount)
    ensures Valid(t.(reviews := t.reviews[i := r]))
  {
    ReviewsReplaceOk(t.reviews, i, r, UserIds(t.users), BookIds(t.books), t.nextId);
  }

  /** The identity sequence moves on by one. */
  lemma FreshAdvance(t: Tables)
    requires UsersFresh(t.users, t.nextId) && RolesFresh(t.roles, t.nextId) &&
      AuthorsFresh(t.authors, t.nextId) && PublishersFresh(t.publishers, t.nextId) &&
      BooksFresh(t.books, t.nextId) && ReviewsFresh(t.reviews, t.nextId) &&
      SearchLogsFresh(t.searchLogs, t.nextId) && ActivityLogsFresh(t.activityLogs, t.nextId)
    ensures UsersFresh(t.users, t.nextId + 1) && RolesFresh(t.roles, t.nextId + 1) &&
      AuthorsFresh(t.authors, t.nextId + 1) && PublishersFresh(t.publishers, t.nextId + 1) &&
      BooksFresh(t.books, t.nextId + 1) && ReviewsFresh(t.reviews, t.nextId + 1) &&
      SearchLogsFresh(t.searchLogs, t.nextId + 1) && ActivityLogsFresh(t.activityLogs, t.nextId + 1)
  {
  }

  /** Inserting a review under a fresh id, with valid references and no second top-level review of the same book by the same user. */
  lemma InsertReviewKeepsValid(t: Tables, r: Review)
    requires Valid(t) && r.reviewId == t.nextId
    requires ReviewRefsOk(r, UserIds(t.users), BookIds(t.books), ReviewIds(t.reviews))
    requires InInt32(r.likeCount) && InInt32(r.dislikeCount)
    requires r.parentReviewId.None? ==>
      forall x :: x in t.reviews && x.parentReviewId.None? ==> (x.bookId, x.userId) != (r.bookId, r.userId)
    ensures Valid(t.(reviews := t.reviews + [r], nextId := t.nextId + 1))
  {
    ReviewsAppendOk(t.reviews, r, UserIds(t.users), BookIds(t.books), t.nextId);
    FreshAdvance(t);
    var ids := ReviewIds(t.reviews + [r]);
    forall v | v in t.votes
      ensures v.reviewId in ids
    {
    }
  }

  /** Overwriting a vote's type or time, keeping its key. */
  lemma VotesReplaceOk(votes: seq<ReviewVote>, i: nat, v: ReviewVote, reviewIds: set<int>, userIds: set<int>)
    requires VotesOk(votes) && VotesRefsOk(votes, reviewIds, userIds) && i < |votes|
    requires v.userId == votes[i].userId && v.reviewId == votes[i].reviewId
    ensures VotesOk(votes[i := v]) && VotesRefsOk(votes[i := v], reviewIds, userIds)
  {
    assert votes[i] in votes;
    assert forall x :: x in votes[i := v] ==> x in votes || x == v;
  }

  lemma VotesRemoveOk(votes: seq<ReviewVote>, i: nat, reviewIds: set<int>, userIds: set<int>)
    requires VotesOk(votes) && VotesRefsOk(votes, reviewIds, userIds) && i < |votes|
    ensures VotesOk(RemoveAt(votes, i)) && VotesRefsOk(RemoveAt(votes, i), reviewIds, userIds)
  {
    var s := RemoveAt(votes, i);
    forall a, b | 0 <= a < b < |s|
      ensures (s[a].userId, s[a].reviewId) != (s[b].userId, s[b].reviewId)
    {
      var a' := if a < i then a else a + 1;
      var b' := if b < i then b else b + 1;
      assert s[a] == votes[a'] && s[b] == votes[b'];
    }
  }

  /** Appending a vote for an existing review and user that has not voted on it yet. */
  lemma VotesAppendOk(votes: seq<ReviewVote>, v: ReviewVote, reviewIds: set<int>, userIds: set<int>)
    requires VotesOk(votes) && VotesRefsOk(votes, reviewIds, userIds)
    requires v.reviewId in reviewIds && v.userId in userIds
    requires forall w :: w in votes ==> (w.userId, w.reviewId) != (v.userId, v.reviewId)
    ensures VotesOk(votes + [v]) && VotesRefsOk(votes + [v], reviewIds, userIds)
  {
    var s := votes + [v];
    assert forall x :: x in s ==> x in votes || x == v;
    forall a, b | 0 <= a < b < |s|
      ensures (s[a].userId, s[a].reviewId) != (s[b].userId, s[b].reviewId)
    {
      assert s[a] in votes;
      if b < |votes| {
        assert s[a] == votes[a] && s[b] == votes[b];
      }
    }
  }

  /** Overwriting a book's columns, keeping its id, with valid references and a 32-bit view count. */
  lemma ReplaceBookKeepsValid(t: Tables, i: nat, b: Book)
    requires Valid(t) && i < |t.books|
    requires b.bookId == t.books[i].bookId
    requires BookRefsOk(b, UserIds(t.users), AuthorIds(t.authors), PublisherIds(t.publishers)) && InInt32(b.viewCount)
    ensures Valid(t.(books := t.books[i := b]))
  {
    KeySetUpdate(t.books, i, b, BookKey);
    assert t.books[i] in t.books;
    assert forall x :: x in t.books[i := b] ==> x in t.books || x == b;
  }

  /** Appending a search log under a fresh id whose user, if it names one, exists. */
  lemma InsertSearchLogKeepsValid(t: Tables, l: SearchLog)
    requires Valid(t) && l.logId == t.nextId
    requires l.userId.Some? ==> l.userId.value in UserIds(t.users)
    ensures Valid(t.(searchLogs := t.searchLogs + [l], nextId := t.nextId + 1))
  {
    FreshAdvance(t);
    var s := t.searchLogs + [l];
    assert forall x :: x in s ==> x in t.searchLogs || x == l;
    forall a, b | 0 <= a < b < |s|
      ensures s[a].logId != s[b].logId
    {
      assert s[a] == t.searchLogs[a];
      if b < |t.searchLogs| {
        assert s[b] == t.searchLogs[b];
      }
    }
  }

  /** Appending an activity log under a fresh id for an existing user. */
  lemma InsertActivityLogKeepsValid(t: Tables, l: ActivityLog)
    requires Valid(t) && l.logId == t.nextId && l.userId in UserIds(t.users)
    ensures Valid(t.(activityLogs := t.activityLogs + [l], nextId := t.nextId + 1))
  {
    FreshAdvance(t);
    var s := t.activityLogs + [l];
    assert forall x :: x in s ==> x in t.activityLogs || x == l;
    forall a, b | 0 <= a < b < |s|
      ensures s[a].logId != s[b].logId
    {
      assert s[a] == t.activityLogs[a];
      if b < |t.activityLogs| {
        assert s[b] == t.activityLogs[b];
      }
    }
  }
  /** Overwriting a user's columns, keeping the id, with a username and an email no other user holds. */
  lemma ReplaceUserKeepsValid(t: Tables, i: nat, u: User)
    requires Valid(t) && i < |t.users|
    requires u.userId == t.users[i].userId
    requires forall j :: 0 <= j < |t.users| && j != i ==>
      t.users[j].username != u.username && t.users[j].email != u.email
    ensures Valid(t.(users := t.users[i := u]))
  {
    KeySetUpdate(t.users, i, u, UserKey);
    assert t.users[i] in t.users;
    assert forall x :: x in t.users[i := u] ==> x in t.users || x == u;
  }

  /** Removing one favourite row. */
  lemma RemoveFavoriteKeepsValid(t: Tables, i: nat)
    requires Valid(t) && i < |t.favorites|
    ensures Valid(t.(favorites := RemoveAt(t.favorites, i)))
  {
    var r := RemoveAt(t.favorites, i);
    forall a, b | 0 <= a < b < |r|
      ensures (r[a].userId, r[a].bookId) != (r[b].userId, r[b].bookId)
    {
      var a' := if a < i then a else a + 1;
      var b' := if b < i then b else b + 1;
      assert r[a] == t.favorites[a'] && r[b] == t.favorites[b'];
    }
  }
}
