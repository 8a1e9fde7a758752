// The admin page that deletes a user (Pages/Admin/Users/Delete). The page
// refuses while the user administers a book; otherwise it removes the
// user's reviews, favourites, activity logs and role links and the user, and
// the database's cascades take the rest: every reply hanging below a removed
// review, every vote on a removed review and every vote the user cast. The
// user's search logs stay with a null user (SetNull).
//
// As written, the vote rows of the user disappear while the like and
// dislike counters of the reviews they were cast on keep counting them.
// `DeleteUserAsWritten` is that behaviour; `DeleteUserSpec` withdraws each
// of the user's votes from its review's counters the way the vote handler
// does when a vote is taken back, and is what `DeleteUser` implements.
module UserDelete {
  import opened Seqs
  import opened Entities
  import opened Schema
  import opened Store
  import opened Cascade
  import opened ReviewVotes
  import opened Deletes

  // ---------------------------------------------------------------------------
  // OnGetAsync: what the user still holds.

  datatype UserDeleteInfo = UserDeleteInfo(
    bookCount: nat,
    reviewCount: nat,
    favoriteCount: nat,
    activityLogCount: nat,
    hasDependencies: bool)

  predicate AdministeredBy(b: Book, userId: int)
  {
    b.adminId == Some(userId)
  }

  function UserDeleteInfoOf(t: Tables, userId: int): UserDeleteInfo
  {
    var nb := Count(t.books, (b: Book) => AdministeredBy(b, userId));
    var nr := Count(t.reviews, (r: Review) => r.userId == userId);
    var nf := Count(t.favorites, (f: FavoriteBook) => f.userId == userId);
    var na := Count(t.activityLogs, (l: ActivityLog) => l.userId == userId);
    UserDeleteInfo(nb, nr, nf, na, nb > 0 || nr > 0 || nf > 0 || na > 0)
  }

  /** The page for an existing user, nothing otherwise. */
  function UserDeletePage(t: Tables, id: Option<int>): Option<UserDeleteInfo>
  {
    if id.None? || FindUser(t.users, id.value).None? then None else Some(UserDeleteInfoOf(t, id.value))
  }

  /** Some book, review (reply or not), favourite or activity log belongs to the user. */
  ghost predicate HoldsRows(t: Tables, userId: int)
  {
    (exists b :: b in t.books && AdministeredBy(b, userId)) ||
    (exists r :: r in t.reviews && r.userId == userId) ||
    (exists f :: f in t.favorites && f.userId == userId) ||
    (exists l :: l in t.activityLogs && l.userId == userId)
  }

  /** The page is shown for an existing user only, and flags dependencies exactly when the user holds rows. */
  lemma UserDeletePageSpec(t: Tables, id: Option<int>)
    ensures UserDeletePage(t, id).Some? <==> id.Some? && id.value in UserIds(t.users)
    ensures var p := UserDeletePage(t, id);
      p.Some? ==> (p.value.hasDependencies <==> HoldsRows(t, id.value))
  {
    if id.Some? {
      var uid := id.value;
      CountZero(t.books, (b: Book) => AdministeredBy(b, uid));
      CountZero(t.reviews, (r: Review) => r.userId == uid);
      CountZero(t.favorites, (f: FavoriteBook) => f.userId == uid);
      CountZero(t.activityLogs, (l: ActivityLog) => l.userId == uid);
    }
  }

  // ---------------------------------------------------------------------------
  // OnPostAsync: the rows that go.

  datatype UserDeleteResult = UserNotFound | UserBlocked | UserDeleted

  /** The user's reviews go, and the cascade on the parent review takes every reply below them. */
  function SurvivingReviews(reviews: seq<Review>, userId: int): seq<Review>
  {
    Prune(Filter(reviews, (r: Review) => r.userId != userId))
  }

  /** A vote survives when it is not the user's and its review survives. */
  function KeepVote(reviewIds: set<int>, userId: int): ReviewVote -> bool
  {
    (v: ReviewVote) => v.userId != userId && v.reviewId in reviewIds
  }

  function SurvivingVotes(votes: seq<ReviewVote>, reviewIds: set<int>, userId: int): seq<ReviewVote>
  {
    Filter(votes, KeepVote(reviewIds, userId))
  }

  /** `user.Roles.Clear()`: the user's rows of `user_roles` go. */
  function OtherRoleLinks(userRoles: set<UserRole>, userId: int): set<UserRole>
  {
    set ur | ur in userRoles && ur.userId != userId
  }

  function FavoriteOfOther(userId: int): FavoriteBook -> bool
  {
    (f: FavoriteBook) => f.userId != userId
  }

  function LogOfOther(userId: int): ActivityLog -> bool
  {
    (l: ActivityLog) => l.userId != userId
  }

  /** `RemoveRange(user.FavoriteBooks)`. */
  function OtherFavorites(favorites: seq<FavoriteBook>, userId: int): seq<FavoriteBook>
  {
    Filter(favorites, FavoriteOfOther(userId))
  }

  /** `RemoveRange(user.ActivityLogs)`. */
  function OtherActivityLogs(logs: seq<ActivityLog>, userId: int): seq<ActivityLog>
  {
    Filter(logs, LogOfOther(userId))
  }

  /** `search_logs.user_id ... ON DELETE SET NULL`. */
  function ForgetSearcher(logs: seq<SearchLog>, userId: int): (r: seq<SearchLog>)
    ensures |r| == |logs|
    ensures forall k :: 0 <= k < |r| ==> r[k].logId == logs[k].logId && r[k].userId != Some(userId)
  {
    Map(logs, (l: SearchLog) => if l.userId == Some(userId) then l.(userId := None) else l)
  }

  /** Every table after the user at index `i` and everything hanging from it are gone. */
  function RemoveUserRows(t: Tables, i: nat): Tables
    requires i < |t.users|
  {
    var uid := t.users[i].userId;
    var reviews := SurvivingReviews(t.reviews, uid);
    t.(users := RemoveAt(t.users, i),
       userRoles := OtherRoleLinks(t.userRoles, uid),
       books := ClearAdmin(t.books, uid),
       reviews := reviews,
       votes := SurvivingVotes(t.votes, ReviewIds(reviews), uid),
       favorites := OtherFavorites(t.favorites, uid),
       searchLogs := ForgetSearcher(t.searchLogs, uid),
       activityLogs := OtherActivityLogs(t.activityLogs, uid))
  }

  /** `OnPostAsync` as written: the counters of the surviving reviews are left as they were. */
  function DeleteUserAsWritten(t: Tables, id: Option<int>): (r: (Tables, UserDeleteResult))
    ensures r.1 != UserDeleted ==> r.0 == t
    ensures r.1 == UserDeleted ==> id.Some? && id.value in UserIds(t.users) && |r.0.users| == |t.users| - 1
  {
    if id.None? then (t, UserNotFound)
    else
      var i := FindUser(t.users, id.value);
      if i.None? then (t, UserNotFound)
      else if Any(t.books, (b: Book) => AdministeredBy(b, id.value)) then (t, UserBlocked)
      else (RemoveUserRows(t, i.value), UserDeleted)
  }

  /** The review with the user's vote on it, if any, taken back. */
  function Withdraw(r: Review, votes: seq<ReviewVote>, userId: int): Review
    requires InInt32(r.likeCount) && InInt32(r.dislikeCount)
  {
    var prior := PriorVote(votes, userId, r.reviewId);
    if prior.None? then r else Unvote(r, prior.value)
  }

  function WithdrawAll(reviews: seq<Review>, votes: seq<ReviewVote>, userId: int): (r: seq<Review>)
    requires CountersInRange(reviews)
    ensures |r| == |reviews|
    ensures forall k :: 0 <= k < |r| ==> reviews[k] in reviews && r[k] == Withdraw(reviews[k], votes, userId)
  {
    if reviews == [] then []
    else
      assert reviews[0] in reviews;
      assert CountersInRange(reviews[1..]) by {
        assert forall x :: x in reviews[1..] ==> x in reviews;
      }
      var rest := WithdrawAll(reviews[1..], votes, userId);
      assert forall k :: 0 < k < |reviews| ==> reviews[k] == reviews[1..][k - 1];
      [Withdraw(reviews[0], votes, userId)] + rest
  }

  /** The tables once the user at index `i` is deleted and the user's votes are withdrawn from the surviving reviews. */
  function DeletedTables(t: Tables, i: nat): Tables
    requires CountersInRange(t.reviews) && i < |t.users|
  {
    var t' := RemoveUserRows(t, i);
    assert CountersInRange(t'.reviews) by {
      assert forall x :: x in t'.reviews ==> x in t.reviews;
    }
    t'.(reviews := WithdrawAll(t'.reviews, t.votes, t.users[i].userId))
  }

  /** `OnPostAsync` with the user's votes withdrawn from the counters of the reviews that survive. */
  function DeleteUserSpec(t: Tables, id: Option<int>): (r: (Tables, UserDeleteResult))
    requires CountersInRange(t.reviews)
    ensures r.1 != UserDeleted ==> r.0 == t
    ensures r.1 == UserDeleted ==> id.Some? && id.value in UserIds(t.users) && |r.0.users| == |t.users| - 1
  {
    if id.None? then (t, UserNotFound)
    else
      var i := FindUser(t.users, id.value);
      if i.None? then (t, UserNotFound)
      else if Any(t.books, (b: Book) => AdministeredBy(b, id.value)) then (t, UserBlocked)
      else (DeletedTables(t, i.value), UserDeleted)
  }

  // ---------------------------------------------------------------------------
  // The tables stay valid, one table at a time.

  lemma RemoveUserOk(users: seq<User>, i: nat, nextId: int)
    requires UsersOk(users) && UsersFresh(users, nextId) && i < |users|
    ensures UsersOk(RemoveAt(users, i)) && UsersFresh(RemoveAt(users, i), nextId)
    ensures UserIds(RemoveAt(users, i)) == UserIds(users) - {users[i].userId}
  {
    var s := RemoveAt(users, i);
    KeySetRemove(users, i, UserKey);
    forall a, b | 0 <= a < b < |s|
      ensures s[a].userId != s[b].userId && s[a].username != s[b].username && s[a].email != s[b].email
    {
      var a' := if a < i then a else a + 1;
      var b' := if b < i then b else b + 1;
      assert s[a] == users[a'] && s[b] == users[b'];
    }
  }

  function ReviewRel(): (Review, Review) -> bool
  {
    (a: Review, b: Review) =>
      a.reviewId != b.reviewId &&
      (a.parentReviewId.None? && b.parentReviewId.None? ==> (a.bookId, a.userId) != (b.bookId, b.userId))
  }

  lemma SurvivingReviewsOk(reviews: seq<Review>, userId: int, userIds: set<int>, bookIds: set<int>, nextId: int)
    requires ReviewsOk(reviews) && ReviewsRefsOk(reviews, userIds, bookIds) && ReviewsFresh(reviews, nextId)
    ensures var s := SurvivingReviews(reviews, userId);
      ReviewsOk(s) && ReviewsRefsOk(s, userIds - {userId}, bookIds) && ReviewsFresh(s, nextId)
    ensures forall r :: r in SurvivingReviews(reviews, userId) ==> r in reviews && r.userId != userId
  {
    var f := Filter(reviews, (r: Review) => r.userId != userId);
    var s := Prune(f);
    var rel := ReviewRel();
    assert Pairwise(reviews, rel);
    FilterPairwise(reviews, (r: Review) => r.userId != userId, rel);
    PrunePairwise(f, rel);
    PruneClosed(f);
    assert forall r :: r in s ==> r in reviews && r.userId != userId;
    forall a, b | 0 <= a < b < |s|
      ensures s[a].reviewId != s[b].reviewId
      ensures s[a].parentReviewId.None? && s[b].parentReviewId.None? ==> (s[a].bookId, s[a].userId) != (s[b].bookId, s[b].userId)
    {
      assert rel(s[a], s[b]);
    }
    forall r | r in s
      ensures ReviewRefsOk(r, userIds - {userId}, bookIds, ReviewIds(s))
    {
      assert ParentIn(r, ReviewIds(s));
    }
  }

  lemma SurvivingVotesOk(votes: seq<ReviewVote>, reviewIds: set<int>, userId: int, oldReviewIds: set<int>, userIds: set<int>)
    requires VotesOk(votes) && VotesRefsOk(votes, oldReviewIds, userIds)
    ensures var s := SurvivingVotes(votes, reviewIds, userId);
      VotesOk(s) && VotesRefsOk(s, reviewIds, userIds - {userId})
  {
    var rel := (a: ReviewVote, b: ReviewVote) => (a.userId, a.reviewId) != (b.userId, b.reviewId);
    var s := SurvivingVotes(votes, reviewIds, userId);
    assert Pairwise(votes, rel);
    FilterPairwise(votes, KeepVote(reviewIds, userId), rel);
    forall a, b | 0 <= a < b < |s|
      ensures (s[a].userId, s[a].reviewId) != (s[b].userId, s[b].reviewId)
    {
      assert rel(s[a], s[b]);
    }
  }

  lemma OtherFavoritesOk(favorites: seq<FavoriteBook>, userId: int, bookIds: set<int>, userIds: set<int>)
    requires FavoritesOk(favorites) && FavoritesRefsOk(favorites, bookIds, userIds)
    ensures var s := OtherFavorites(favorites, userId);
      FavoritesOk(s) && FavoritesRefsOk(s, bookIds, userIds - {userId})
  {
    var rel := (a: FavoriteBook, b: FavoriteBook) => (a.userId, a.bookId) != (b.userId, b.bookId);
    var s := OtherFavorites(favorites, userId);
    assert Pairwise(favorites, rel);
    FilterPairwise(favorites, FavoriteOfOther(userId), rel);
    forall a, b | 0 <= a < b < |s|
      ensures (s[a].userId, s[a].bookId) != (s[b].userId, s[b].bookId)
    {
      assert rel(s[a], s[b]);
    }
  }

  lemma OtherActivityLogsOk(logs: seq<ActivityLog>, userId: int, userIds: set<int>, nextId: int)
    requires ActivityLogsOk(logs) && ActivityLogsRefsOk(logs, userIds) && ActivityLogsFresh(logs, nextId)
    ensures var s := OtherActivityLogs(logs, userId);
      ActivityLogsOk(s) && ActivityLogsRefsOk(s, userIds - {userId}) && ActivityLogsFresh(s, nextId)
  {
    var rel := (a: ActivityLog, b: ActivityLog) => a.logId != b.logId;
    var s := OtherActivityLogs(logs, userId);
    assert Pairwise(logs, rel);
    FilterPairwise(logs, LogOfOther(userId), rel);
    forall a, b | 0 <= a < b < |s|
      ensures s[a].logId != s[b].logId
    {
      assert rel(s[a], s[b]);
    }
  }

  lemma ForgetSearcherOk(logs: seq<SearchLog>, userId: int, userIds: set<int>, nextId: int)
    requires SearchLogsOk(logs) && SearchLogsRefsOk(logs, userIds) && SearchLogsFresh(logs, nextId)
    ensures var s := ForgetSearcher(logs, userId);
      SearchLogsOk(s) && SearchLogsRefsOk(s, userIds - {userId}) && SearchLogsFresh(s, nextId)
  {
    var s := ForgetSearcher(logs, userId);
    forall l | l in s
      ensures (l.userId.Some? ==> l.userId.value in userIds - {userId}) && l.logId < nextId
    {
      var k :| 0 <= k < |s| && s[k] == l;
      assert logs[k] in logs;
    }
  }

  /** Removing a user who administers no book, with everything that hangs from the user. */
  lemma RemoveUserRowsKeepsValid(t: Tables, i: nat)
    requires Valid(t) && i < |t.users|
    requires forall b :: b in t.books ==> !AdministeredBy(b, t.users[i].userId)
    ensures Valid(RemoveUserRows(t, i))
    ensures UserIds(RemoveUserRows(t, i).users) == UserIds(t.users) - {t.users[i].userId}
  {
    var uid := t.users[i].userId;
    var t' := RemoveUserRows(t, i);
    var userIds := UserIds(t.users);
    RemoveUserOk(t.users, i, t.nextId);
    ClearAdminUnused(t.books, uid);
    assert BooksRefsOk(t'.books, userIds - {uid}, AuthorIds(t.authors), PublisherIds(t.publishers));
    SurvivingReviewsOk(t.reviews, uid, userIds, BookIds(t.books), t.nextId);
    SurvivingVotesOk(t.votes, ReviewIds(t'.reviews), uid, ReviewIds(t.reviews), userIds);
    OtherFavoritesOk(t.favorites, uid, BookIds(t.books), userIds);
    OtherActivityLogsOk(t.activityLogs, uid, userIds, t.nextId);
    ForgetSearcherOk(t.searchLogs, uid, userIds, t.nextId);
    assert UserRolesRefsOk(t'.userRoles, userIds - {uid}, RoleIds(t.roles));
  }

  /** Withdrawing votes keeps every review's keys and references. */
  lemma WithdrawAllKeys(reviews: seq<Review>, votes: seq<ReviewVote>, userId: int)
    requires CountersInRange(reviews)
    ensures var s := WithdrawAll(reviews, votes, userId);
      forall k :: 0 <= k < |s| ==>
        s[k].reviewId == reviews[k].reviewId && s[k].bookId == reviews[k].bookId &&
        s[k].userId == reviews[k].userId && s[k].parentReviewId == reviews[k].parentReviewId
    ensures ReviewIds(WithdrawAll(reviews, votes, userId)) == ReviewIds(reviews)
  {
    var s := WithdrawAll(reviews, votes, userId);
    assert forall k :: 0 <= k < |s| ==>
      s[k].reviewId == reviews[k].reviewId && s[k].bookId == reviews[k].bookId &&
      s[k].userId == reviews[k].userId && s[k].parentReviewId == reviews[k].parentReviewId;
    assert ReviewIds(s) == ReviewIds(reviews) by {
      forall id | id in ReviewIds(reviews) ensures id in ReviewIds(s) {
        var x :| x in reviews && x.reviewId == id;
        var k :| 0 <= k < |reviews| && reviews[k] == x;
        assert s[k] in s;
      }
    }
  }

  /** Withdrawing votes touches only the counters. */
  lemma WithdrawAllCounters(reviews: seq<Review>, votes: seq<ReviewVote>, userId: int)
    requires CountersInRange(reviews)
    ensures CountersInRange(WithdrawAll(reviews, votes, userId))
  {
    var s := WithdrawAll(reviews, votes, userId);
    forall x | x in s
      ensures InInt32(x.likeCount) && InInt32(x.dislikeCount)
    {
      var k :| 0 <= k < |s| && s[k] == x;
    }
  }

  lemma WithdrawAllRefs(reviews: seq<Review>, votes: seq<ReviewVote>, userId: int, userIds: set<int>, bookIds: set<int>, nextId: int)
    requires CountersInRange(reviews) && ReviewsRefsOk(reviews, userIds, bookIds) && ReviewsFresh(reviews, nextId)
    ensures var s := WithdrawAll(reviews, votes, userId);
      ReviewsRefsOk(s, userIds, bookIds) && ReviewsFresh(s, nextId)
  {
    var s := WithdrawAll(reviews, votes, userId);
    WithdrawAllKeys(reviews, votes, userId);
    forall x | x in s
      ensures ReviewRefsOk(x, userIds, bookIds, ReviewIds(s)) && x.reviewId < nextId
    {
      var k :| 0 <= k < |s| && s[k] == x;
      assert reviews[k] in reviews;
    }
  }

  lemma WithdrawAllOk(reviews: seq<Review>, votes: seq<ReviewVote>, userId: int, userIds: set<int>, bookIds: set<int>, nextId: int)
    requires ReviewsOk(reviews) && ReviewsRefsOk(reviews, userIds, bookIds) && ReviewsFresh(reviews, nextId)
    ensures var s := WithdrawAll(reviews, votes, userId);
      ReviewsOk(s) && ReviewsRefsOk(s, userIds, bookIds) && ReviewsFresh(s, nextId) && ReviewIds(s) == ReviewIds(reviews)
  {
    WithdrawAllKeys(reviews, votes, userId);
    WithdrawAllCounters(reviews, votes, userId);
    WithdrawAllRefs(reviews, votes, userId, userIds, bookIds, nextId);
  }

  lemma DeleteUserKeepsValid(t: Tables, id: Option<int>)
    requires Valid(t)
    ensures Valid(DeleteUserSpec(t, id).0)
    ensures Valid(DeleteUserAsWritten(t, id).0)
  {
    if id.Some? {
      var i := FindUser(t.users, id.value);
      if i.Some? && !Any(t.books, (b: Book) => AdministeredBy(b, id.value)) {
        forall b | b in t.books
          ensures !AdministeredBy(b, t.users[i.value].userId)
        {
          var k :| 0 <= k < |t.books| && t.books[k] == b;
        }
        RemoveUserRowsKeepsValid(t, i.value);
        var t' := RemoveUserRows(t, i.value);
        WithdrawAllOk(t'.reviews, t.votes, id.value, UserIds(t'.users), BookIds(t'.books), t'.nextId);
      }
    }
  }

  /** `DeletedTables` spelled out column by column. */
  lemma DeletedTablesShape(t: Tables, i: nat)
    requires CountersInRange(t.reviews) && i < |t.users|
    ensures var uid := t.users[i].userId;
      var reviews := SurvivingReviews(t.reviews, uid);
      CountersInRange(reviews) &&
      DeletedTables(t, i) == Tables(RemoveAt(t.users, i), t.roles, OtherRoleLinks(t.userRoles, uid), t.authors, t.publishers,
        ClearAdmin(t.books, uid), WithdrawAll(reviews, t.votes, uid), SurvivingVotes(t.votes, ReviewIds(reviews), uid),
        OtherFavorites(t.favorites, uid), ForgetSearcher(t.searchLogs, uid), OtherActivityLogs(t.activityLogs, uid), t.nextId)
  {
    var reviews := SurvivingReviews(t.reviews, t.users[i].userId);
    assert forall x :: x in reviews ==> x in t.reviews;
  }

  lemma DeleteUserSpecDeletes(t: Tables, userId: int, i: nat)
    requires CountersInRange(t.reviews) && FindUser(t.users, userId) == Some(i)
    requires forall b :: b in t.books ==> !AdministeredBy(b, userId)
    ensures DeleteUserSpec(t, Some(userId)) == (DeletedTables(t, i), UserDeleted)
  {
    CountPositive(t.books, (b: Book) => AdministeredBy(b, userId));
  }

  lemma DeleteUserAsWrittenDeletes(t: Tables, userId: int, i: nat)
    requires FindUser(t.users, userId) == Some(i)
    requires forall b :: b in t.books ==> !AdministeredBy(b, userId)
    ensures DeleteUserAsWritten(t, Some(userId)) == (RemoveUserRows(t, i), UserDeleted)
  {
    CountPositive(t.books, (b: Book) => AdministeredBy(b, userId));
  }

  /**
   * `OnPostAsync` as written: the rows go as the page removes them and the
   * database cascades, and the counters of the surviving reviews stay.
   */
  method DeleteUser(ctx: Context, id: Option<int>) returns (res: UserDeleteResult)
    requires ctx.Valid()
    modifies ctx
    ensures (ctx.Db(), res) == DeleteUserAsWritten(old(ctx.Db()), id)
    ensures ctx.Valid()
  {
    ghost var t := ctx.Db();
    if id.None? {
      return UserNotFound;
    }
    var uid := id.value;
    var i := FindUser(ctx.users, uid);
    if i.None? {
      return UserNotFound;
    }
    var n := Count(ctx.books, (b: Book) => AdministeredBy(b, uid));
    CountPositive(ctx.books, (b: Book) => AdministeredBy(b, uid));
    if n > 0 {
      return UserBlocked;
    }
    assert t.users[i.value].userId == uid;
    var reviews := SurvivingReviews(ctx.reviews, uid);
    var users' := RemoveAt(ctx.users, i.value);
    var userRoles' := OtherRoleLinks(ctx.userRoles, uid);
    var books' := ClearAdmin(ctx.books, uid);
    var votes' := SurvivingVotes(ctx.votes, ReviewIds(reviews), uid);
    var favorites' := OtherFavorites(ctx.favorites, uid);
    var searchLogs' := ForgetSearcher(ctx.searchLogs, uid);
    var activityLogs' := OtherActivityLogs(ctx.activityLogs, uid);
    var t' := Tables(users', ctx.roles, userRoles', ctx.authors, ctx.publishers, books', reviews, votes',
      favorites', searchLogs', activityLogs', ctx.nextId);
    DeleteUserAsWrittenDeletes(t, uid, i.value);
    ctx.Commit(t');
    res := UserDeleted;
    DeleteUserKeepsValid(t, id);
  }

  // ---------------------------------------------------------------------------
  // What the delete does.

  /** Nothing that names the user is left. */
  ghost predicate Forgotten(t: Tables, userId: int)
  {
    userId !in UserIds(t.users) &&
    (forall ur :: ur in t.userRoles ==> ur.userId != userId) &&
    (forall b :: b in t.books ==> !AdministeredBy(b, userId)) &&
    (forall r :: r in t.reviews ==> r.userId != userId) &&
    (forall v :: v in t.votes ==> v.userId != userId) &&
    (forall f :: f in t.favorites ==> f.userId != userId) &&
    (forall l :: l in t.searchLogs ==> l.userId != Some(userId)) &&
    (forall l :: l in t.activityLogs ==> l.userId != userId)
  }

  /** No surviving review is the user's. */
  lemma DeletedReviewsForget(t: Tables, i: nat)
    requires CountersInRange(t.reviews) && i < |t.users|
    ensures forall r :: r in DeletedTables(t, i).reviews ==> r.userId != t.users[i].userId
  {
    var uid := t.users[i].userId;
    var reviews := SurvivingReviews(t.reviews, uid);
    DeletedTablesShape(t, i);
    assert forall x :: x in reviews ==> x.userId != uid;
    WithdrawAllAuthors(reviews, t.votes, uid);
  }

  /** Withdrawing votes changes no review's author. */
  lemma WithdrawAllAuthors(reviews: seq<Review>, votes: seq<ReviewVote>, uid: int)
    requires CountersInRange(reviews)
    requires forall x :: x in reviews ==> x.userId != uid
    ensures forall r :: r in WithdrawAll(reviews, votes, uid) ==> r.userId != uid
  {
    var s := WithdrawAll(reviews, votes, uid);
    WithdrawAllKeys(reviews, votes, uid);
    forall r | r in s
      ensures r.userId != uid
    {
      var k :| 0 <= k < |s| && s[k] == r;
      assert reviews[k] in reviews;
    }
  }

  /** As written too, the deleted user and every row naming the user are gone, and no other user. */
  lemma RemovedForgets(t: Tables, i: nat)
    requires UsersOk(t.users) && i < |t.users|
    ensures var t' := RemoveUserRows(t, i);
      Forgotten(t', t.users[i].userId) && UserIds(t'.users) == UserIds(t.users) - {t.users[i].userId}
  {
    var uid := t.users[i].userId;
    var t' := RemoveUserRows(t, i);
    KeySetRemove(t.users, i, UserKey);
    assert forall l :: l in t'.searchLogs ==> l.userId != Some(uid) by {
      forall l | l in t'.searchLogs
        ensures l.userId != Some(uid)
      {
        var k :| 0 <= k < |t'.searchLogs| && t'.searchLogs[k] == l;
      }
    }
    assert forall b :: b in t'.books ==> !AdministeredBy(b, uid) by {
      forall b | b in t'.books
        ensures !AdministeredBy(b, uid)
      {
        var k :| 0 <= k < |t'.books| && t'.books[k] == b;
      }
    }
  }

  /** The deleted user and every row naming the user are gone, and no other user. */
  lemma DeletedForgets(t: Tables, i: nat)
    requires UsersOk(t.users) && CountersInRange(t.reviews) && i < |t.users|
    ensures var t' := DeletedTables(t, i);
      Forgotten(t', t.users[i].userId) && UserIds(t'.users) == UserIds(t.users) - {t.users[i].userId}
  {
    var uid := t.users[i].userId;
    var t' := DeletedTables(t, i);
    KeySetRemove(t.users, i, UserKey);
    DeletedReviewsForget(t, i);
    assert forall l :: l in t'.searchLogs ==> l.userId != Some(uid) by {
      forall l | l in t'.searchLogs
        ensures l.userId != Some(uid)
      {
        var k :| 0 <= k < |t'.searchLogs| && t'.searchLogs[k] == l;
      }
    }
    assert forall b :: b in t'.books ==> !AdministeredBy(b, uid) by {
      forall b | b in t'.books
        ensures !AdministeredBy(b, uid)
      {
        var k :| 0 <= k < |t'.books| && t'.books[k] == b;
      }
    }
  }

  /**
   * The books, authors, publishers and roles stay; so do the other users'
   * favourites and activity logs, and every top-level review by someone
   * else (with its counters adjusted).
   */
  lemma DeletedKeepsOthers(t: Tables, i: nat)
    requires CountersInRange(t.reviews) && i < |t.users|
    requires forall b :: b in t.books ==> !AdministeredBy(b, t.users[i].userId)
    ensures var t' := DeletedTables(t, i);
      t'.books == t.books && t'.authors == t.authors && t'.publishers == t.publishers &&
      t'.roles == t.roles && t'.nextId == t.nextId
    ensures var t' := DeletedTables(t, i);
      forall f :: f in t.favorites && f.userId != t.users[i].userId ==> f in t'.favorites
    ensures var t' := DeletedTables(t, i);
      forall l :: l in t.activityLogs && l.userId != t.users[i].userId ==> l in t'.activityLogs
    ensures var t' := DeletedTables(t, i);
      forall r :: r in t.reviews && r.userId != t.users[i].userId && r.parentReviewId.None? ==> r.reviewId in ReviewIds(t'.reviews)
  {
    var uid := t.users[i].userId;
    var reviews := SurvivingReviews(t.reviews, uid);
    DeletedTablesShape(t, i);
    ClearAdminUnused(t.books, uid);
    WithdrawAllKeys(reviews, t.votes, uid);
    var f := Filter(t.reviews, (r: Review) => r.userId != uid);
    forall r | r in t.reviews && r.userId != uid && r.parentReviewId.None?
      ensures r.reviewId in ReviewIds(reviews)
    {
      assert Closed([r]);
      PruneGreatest(f, [r]);
      assert r in reviews;
    }
  }

  /**
   * A missing id or user changes nothing; a user who administers a book is
   * kept; otherwise the user and every row naming the user are gone and
   * the rest of the database keeps what does not depend on the user.
   */
  lemma DeleteUserOutcome(t: Tables, id: Option<int>)
    requires Valid(t)
    ensures var (t', res) := DeleteUserSpec(t, id);
      res == UserNotFound <==> id.None? || id.value !in UserIds(t.users)
    ensures var (t', res) := DeleteUserSpec(t, id);
      res == UserBlocked <==> id.Some? && id.value in UserIds(t.users) && exists b :: b in t.books && AdministeredBy(b, id.value)
    ensures var (t', res) := DeleteUserSpec(t, id);
      res != UserDeleted ==> t' == t
    ensures var (t', res) := DeleteUserSpec(t, id);
      res == UserDeleted ==> Forgotten(t', id.value) && UserIds(t'.users) == UserIds(t.users) - {id.value}
    ensures var (t', res) := DeleteUserSpec(t, id);
      res == UserDeleted ==> t'.books == t.books && t'.roles == t.roles
  {
    if id.Some? {
      var uid := id.value;
      var i := FindUser(t.users, uid);
      var p := (b: Book) => AdministeredBy(b, uid);
      if Any(t.books, p) {
        var k :| 0 <= k < |t.books| && p(t.books[k]);
        assert t.books[k] in t.books;
      }
      if i.Some? && !Any(t.books, p) {
        forall b | b in t.books
          ensures !AdministeredBy(b, t.users[i.value].userId)
        {
          var k :| 0 <= k < |t.books| && t.books[k] == b;
        }
        DeletedForgets(t, i.value);
        DeletedKeepsOthers(t, i.value);
      }
    }
  }

  /** The code as written decides and deletes as the corrected handler does; only the counters differ. */
  lemma DeleteUserAsWrittenOutcome(t: Tables, id: Option<int>)
    requires Valid(t)
    ensures var (t', res) := DeleteUserAsWritten(t, id);
      res == UserNotFound <==> id.None? || id.value !in UserIds(t.users)
    ensures var (t', res) := DeleteUserAsWritten(t, id);
      res == UserBlocked <==> id.Some? && id.value in UserIds(t.users) && exists b :: b in t.books && AdministeredBy(b, id.value)
    ensures var (t', res) := DeleteUserAsWritten(t, id);
      res != UserDeleted ==> t' == t
    ensures var (t', res) := DeleteUserAsWritten(t, id);
      res == UserDeleted ==> Forgotten(t', id.value) && UserIds(t'.users) == UserIds(t.users) - {id.value}
    ensures var (t', res) := DeleteUserAsWritten(t, id);
      res == UserDeleted ==> t'.books == t.books && t'.roles == t.roles
  {
    if id.Some? {
      var uid := id.value;
      var i := FindUser(t.users, uid);
      var p := (b: Book) => AdministeredBy(b, uid);
      if Any(t.books, p) {
        var k :| 0 <= k < |t.books| && p(t.books[k]);
        assert t.books[k] in t.books;
      }
      if i.Some? && !Any(t.books, p) {
        forall b | b in t.books
          ensures !AdministeredBy(b, t.users[i.value].userId)
        {
          var k :| 0 <= k < |t.books| && t.books[k] == b;
        }
        RemovedForgets(t, i.value);
        ClearAdminUnused(t.books, uid);
      }
    }
  }

  // ---------------------------------------------------------------------------
  // The counters.

  /** `Count(both)` of the user's vote on a review of one kind is 1 when that vote exists, 0 otherwise. */
  lemma UserVoteCount(votes: seq<ReviewVote>, userId: int, reviewId: int, ty: int, both: ReviewVote -> bool)
    requires VotesOk(votes)
    requires forall v :: both(v) <==> v.reviewId == reviewId && v.voteType == ty && v.userId == userId
    ensures Count(votes, both) == if PriorVote(votes, userId, reviewId) == Some(ty) then 1 else 0
  {
    var i := FindVote(votes, userId, reviewId);
    if i.None? {
      CountZeroIndex(votes, both);
    } else {
      var k := i.value;
      forall j | 0 <= j < |votes| && j != k
        ensures !both(votes[j])
      {
        if j < k {
          assert (votes[j].userId, votes[j].reviewId) != (votes[k].userId, votes[k].reviewId);
        } else {
          assert (votes[k].userId, votes[k].reviewId) != (votes[j].userId, votes[j].reviewId);
        }
      }
      if votes[k].voteType == ty {
        CountExactlyOne(votes, both, k);
      } else {
        CountZeroIndex(votes, both);
      }
    }
  }

  /** Of a surviving review's votes of one kind, exactly the user's (if any) are gone. */
  lemma SurvivingVotesCount(votes: seq<ReviewVote>, reviewIds: set<int>, userId: int, reviewId: int, ty: int, q: ReviewVote -> bool)
    requires VotesOk(votes) && reviewId in reviewIds
    requires forall v :: q(v) <==> v.reviewId == reviewId && v.voteType == ty
    ensures Count(SurvivingVotes(votes, reviewIds, userId), q) ==
      Count(votes, q) - (if PriorVote(votes, userId, reviewId) == Some(ty) then 1 else 0)
  {
    var both := (v: ReviewVote) => v.reviewId == reviewId && v.voteType == ty && v.userId == userId;
    CountFilterSplit(votes, KeepVote(reviewIds, userId), q, both);
    UserVoteCount(votes, userId, reviewId, ty, both);
  }

  /** Votes all cast by the deleted user leave nothing behind. */
  lemma VoterVotesGone(votes: seq<ReviewVote>, reviewIds: set<int>, userId: int)
    requires forall v :: v in votes ==> v.userId == userId
    ensures SurvivingVotes(votes, reviewIds, userId) == []
  {
    CountZero(votes, KeepVote(reviewIds, userId));
  }

  /** A review whose counters matched the old votes matches the surviving votes once the user's vote is withdrawn. */
  lemma WithdrawMatches(r: Review, votes: seq<ReviewVote>, reviewIds: set<int>, userId: int)
    requires VotesOk(votes) && VoteTypesOk(votes) && r.reviewId in reviewIds
    requires InInt32(r.likeCount) && InInt32(r.dislikeCount)
    requires OrZero(r.likeCount) == LikesOf(votes, r.reviewId) && OrZero(r.dislikeCount) == DislikesOf(votes, r.reviewId)
    ensures var r' := Withdraw(r, votes, userId);
      var s := SurvivingVotes(votes, reviewIds, userId);
      OrZero(r'.likeCount) == LikesOf(s, r.reviewId) && OrZero(r'.dislikeCount) == DislikesOf(s, r.reviewId)
  {
    var id := r.reviewId;
    SurvivingVotesCount(votes, reviewIds, userId, id, 1, LikeOn(id));
    SurvivingVotesCount(votes, reviewIds, userId, id, -1, DislikeOn(id));
    var prior := PriorVote(votes, userId, id);
    if prior.Some? {
      var k := FindVote(votes, userId, id).value;
      assert votes[k] in votes;
    }
  }

  /** Withdrawing the user's votes from reviews whose counters followed the votes keeps them following the surviving votes. */
  lemma WithdrawAllFollows(reviews: seq<Review>, votes: seq<ReviewVote>, userId: int)
    requires VotesOk(votes) && VoteTypesOk(votes)
    requires CountersInRange(reviews) && CountersFollow(reviews, votes)
    ensures CountersFollow(WithdrawAll(reviews, votes, userId), SurvivingVotes(votes, ReviewIds(reviews), userId))
  {
    var w := WithdrawAll(reviews, votes, userId);
    var rids := ReviewIds(reviews);
    forall r' | r' in w
      ensures OrZero(r'.likeCount) == LikesOf(SurvivingVotes(votes, rids, userId), r'.reviewId)
      ensures OrZero(r'.dislikeCount) == DislikesOf(SurvivingVotes(votes, rids, userId), r'.reviewId)
    {
      var k :| 0 <= k < |w| && w[k] == r';
      var r := reviews[k];
      assert r in reviews;
      assert r'.reviewId == r.reviewId;
      WithdrawMatches(r, votes, rids, userId);
    }
  }

  /** With the user's votes withdrawn, every surviving review's counters match the surviving votes. */
  lemma DeletedKeepsCounters(t: Tables, i: nat)
    requires VotesOk(t.votes) && CountersMatch(t) && CountersInRange(t.reviews) && i < |t.users|
    ensures CountersMatch(DeletedTables(t, i))
  {
    var uid := t.users[i].userId;
    var reviews := SurvivingReviews(t.reviews, uid);
    DeletedTablesShape(t, i);
    assert forall x :: x in reviews ==> x in t.reviews;
    WithdrawAllFollows(reviews, t.votes, uid);
  }

  /** A delete that starts from counters that match the votes leaves counters that match the votes. */
  lemma DeleteUserKeepsCounters(t: Tables, id: Option<int>)
    requires Valid(t) && CountersMatch(t)
    ensures CountersMatch(DeleteUserSpec(t, id).0)
  {
    if id.Some? {
      var i := FindUser(t.users, id.value);
      if i.Some? {
        DeletedKeepsCounters(t, i.value);
      }
    }
  }

  /** Users 1 and 2, book 3, user 1's review 4 of it with one like, and user 2's like. */
  function StaleCountersExample(): Tables
  {
    Tables(
      [User(1, "a", "p", "a@x", None, Some(true), None), User(2, "b", "p", "b@x", None, Some(true), None)],
      [], {}, [], [],
      [Book(3, "t", None, None, None, None, Some(0), None, None, None, None, None, None)],
      [Review(4, 3, 1, None, None, Some(1), Some(0), None, None, Some(5))],
      [ReviewVote(2, 4, 1, None)],
      [], [], [], 5)
  }

  /** The example's rows keep their tables' own rules. */
  lemma StaleCountersExampleRowsOk()
    ensures var t := StaleCountersExample();
      UsersOk(t.users) && RolesOk(t.roles) && AuthorsOk(t.authors) && PublishersOk(t.publishers) &&
      BooksOk(t.books) && ReviewsOk(t.reviews) && VotesOk(t.votes) && FavoritesOk(t.favorites) &&
      SearchLogsOk(t.searchLogs) && ActivityLogsOk(t.activityLogs)
  {
  }

  /** The example's foreign keys resolve and its keys lie below the identity counter. */
  lemma StaleCountersExampleRefsOk()
    ensures var t := StaleCountersExample();
      UserRolesRefsOk(t.userRoles, UserIds(t.users), RoleIds(t.roles)) &&
      BooksRefsOk(t.books, UserIds(t.users), AuthorIds(t.authors), PublisherIds(t.publishers)) &&
      ReviewsRefsOk(t.reviews, UserIds(t.users), BookIds(t.books)) &&
      VotesRefsOk(t.votes, ReviewIds(t.reviews), UserIds(t.users)) &&
      FavoritesRefsOk(t.favorites, BookIds(t.books), UserIds(t.users)) &&
      SearchLogsRefsOk(t.searchLogs, UserIds(t.users)) &&
      ActivityLogsRefsOk(t.activityLogs, UserIds(t.users))
  {
    var t := StaleCountersExample();
    assert t.users[0] in t.users && UserKey(t.users[0]) == 1;
    assert t.users[1] in t.users && UserKey(t.users[1]) == 2;
    assert t.books[0] in t.books && BookKey(t.books[0]) == 3;
    assert t.reviews[0] in t.reviews && ReviewKey(t.reviews[0]) == 4;
  }

  /** Every key of the example lies below its identity counter. */
  lemma StaleCountersExampleFresh()
    ensures var t := StaleCountersExample();
      UsersFresh(t.users, t.nextId) && RolesFresh(t.roles, t.nextId) &&
      AuthorsFresh(t.authors, t.nextId) && PublishersFresh(t.publishers, t.nextId) &&
      BooksFresh(t.books, t.nextId) && ReviewsFresh(t.reviews, t.nextId) &&
      SearchLogsFresh(t.searchLogs, t.nextId) && ActivityLogsFresh(t.activityLogs, t.nextId)
  {
  }

  /** Review 4's counters agree with the example's one like. */
  lemma StaleCountersExampleCounters()
    ensures CountersMatch(StaleCountersExample())
  {
    var t := StaleCountersExample();
    assert LikesOf(t.votes, 4) == 1;
    assert DislikesOf(t.votes, 4) == 0;
  }

  /** The example is a valid database whose counters agree with its votes. */
  lemma StaleCountersExampleValid()
    ensures Valid(StaleCountersExample()) && CountersMatch(StaleCountersExample())
  {
    StaleCountersExampleRowsOk();
    StaleCountersExampleRefsOk();
    StaleCountersExampleFresh();
    StaleCountersExampleCounters();
  }

  /**
   * As written the counters go stale: deleting user 2 from the example
   * leaves review 4 counting one like that no vote row backs, while the
   * corrected delete leaves counters that match.
   */
  lemma DeleteUserAsWrittenLeavesStaleCounters()
    ensures !CountersMatch(DeleteUserAsWritten(StaleCountersExample(), Some(2)).0)
    ensures CountersMatch(DeleteUserSpec(StaleCountersExample(), Some(2)).0)
  {
    AsWrittenExampleStale();
    CorrectedExampleMatches();
  }

  /** Review 4 is user 1's top-level review: deleting user 2 keeps it. */
  lemma ExampleReviewSurvives()
    ensures SurvivingReviews(StaleCountersExample().reviews, 2) == StaleCountersExample().reviews
  {
    var t := StaleCountersExample();
    var review := t.reviews[0];
    var f := Filter(t.reviews, (r: Review) => r.userId != 2);
    assert f == [review];
    assert ReviewIds(f) == {4} by {
      assert review in f;
    }
    assert DropOrphans(f) == [review];
  }

  /** User 2 is the example's second row and administers no book. */
  lemma ExampleFindsUser2()
    ensures FindUser(StaleCountersExample().users, 2) == Some(1)
    ensures !Any(StaleCountersExample().books, (b: Book) => AdministeredBy(b, 2))
  {
    var t := StaleCountersExample();
    assert t.users[1] in t.users && UserKey(t.users[1]) == 2;
    assert UserKey(t.users[0]) == 1;
  }

  /** Deleting user 2 as written keeps review 4's like but drops the vote row behind it. */
  lemma AsWrittenExampleStale()
    ensures !CountersMatch(DeleteUserAsWritten(StaleCountersExample(), Some(2)).0)
  {
    var t := StaleCountersExample();
    var review := t.reviews[0];
    ExampleReviewSurvives();
    assert ReviewIds([review]) == {4} by {
      assert review in [review];
    }
    var votes := SurvivingVotes(t.votes, ReviewIds(t.reviews), 2);
    VoterVotesGone(t.votes, ReviewIds(t.reviews), 2);
    ExampleFindsUser2();
    var t' := DeleteUserAsWritten(t, Some(2)).0;
    assert t'.reviews == t.reviews && t'.votes == votes;
    assert review in t'.reviews && LikesOf(t'.votes, 4) == 0;
  }

  /** The corrected delete of user 2 leaves the example's counters matching. */
  lemma CorrectedExampleMatches()
    ensures CountersMatch(DeleteUserSpec(StaleCountersExample(), Some(2)).0)
  {
    var t := StaleCountersExample();
    ExampleFindsUser2();
    StaleCountersExampleRowsOk();
    StaleCountersExampleCounters();
    DeleteUserSpecDeletes(t, 2, 1);
    DeletedKeepsCounters(t, 1);
  }
}
