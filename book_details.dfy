// The book detail page (Pages/Books/Details): the view counter, the
// top-level review upsert, threaded replies, the like/dislike state machine
// with its denormalised counters, and the rating summary.
module BookDetails {
  import opened Seqs
  import opened Text
  import opened Entities
  import opened Schema
  import opened Store
  import opened Sorting

  // ---------------------------------------------------------------------------
  // Lookups

  /** The caller's top-level review of a book, as looked up before an upsert. */
  predicate IsMainReviewBy(r: Review, bookId: int, userId: int)
  {
    r.bookId == bookId && r.userId == userId && r.parentReviewId.None?
  }

  function FindMainReview(reviews: seq<Review>, bookId: int, userId: int): Option<nat>
  {
    FirstIndex(reviews, (r: Review) => IsMainReviewBy(r, bookId, userId))
  }

  // ---------------------------------------------------------------------------
  // View counter (OnGetAsync)

  /** Every visit of an existing book adds one to its view count, a null count read as 0. */
  function BumpViews(t: Tables, bookId: int): Tables
    requires BooksOk(t.books)
  {
    var i := FindBook(t.books, bookId);
    if i.None? then t
    else
      var b := t.books[i.value];
      assert b in t.books;
      t.(books := t.books[i.value := b.(viewCount := Some(Inc32(OrZero(b.viewCount))))])
  }

  lemma BumpViewsSpec(t: Tables, bookId: int)
    requires Valid(t)
    ensures var t' := BumpViews(t, bookId);
      Valid(t') && t' == t.(books := t'.books) && |t'.books| == |t.books| &&
      forall k :: 0 <= k < |t.books| ==>
        if t.books[k].bookId == bookId
        then t'.books[k] == t.books[k].(viewCount := Some(Inc32(OrZero(t.books[k].viewCount))))
        else t'.books[k] == t.books[k]
  {
    var i := FindBook(t.books, bookId);
    if i.Some? {
      var b := t.books[i.value];
      assert b in t.books;
      ReplaceBookKeepsValid(t, i.value, b.(viewCount := Some(Inc32(OrZero(b.viewCount)))));
    } else {
      assert forall k :: 0 <= k < |t.books| ==> t.books[k].bookId != bookId by {
        forall k | 0 <= k < |t.books|
          ensures t.books[k].bookId != bookId
        {
          assert t.books[k] in t.books;
        }
      }
    }
  }

  // ---------------------------------------------------------------------------
  // Rating summary (LoadBookDataAsync)

  /** Ratings of the top-level reviews of a book that carry one. */
  function Ratings(reviews: seq<Review>, bookId: int): seq<int>
  {
    Map(Filter(reviews, (r: Review) => r.bookId == bookId && r.parentReviewId.None? && r.rating.Some?),
        (r: Review) => OrZero(r.rating))
  }

  function SumOf(s: seq<int>): int
  {
    Sum(s, (x: int) => x)
  }

  /** `ratings.Average()`, or 0 when there is no rating. */
  function AverageRating(ratings: seq<int>): real
  {
    if |ratings| == 0 then 0.0 else SumOf(ratings) as real / |ratings| as real
  }

  function CountOf(ratings: seq<int>, star: int): nat
  {
    Count(ratings, (x: int) => x == star)
  }

  /** Number of ratings of each star, for stars 1 to 5 in that order. */
  function Distribution(ratings: seq<int>): (d: seq<nat>)
    ensures |d| == 5
    ensures forall k :: 0 <= k < 5 ==> d[k] == CountOf(ratings, k + 1)
  {
    [CountOf(ratings, 1), CountOf(ratings, 2), CountOf(ratings, 3), CountOf(ratings, 4), CountOf(ratings, 5)]
  }

  predicate StarsInRange(ratings: seq<int>)
  {
    forall k :: 0 <= k < |ratings| ==> 1 <= ratings[k] <= 5
  }

  /** With every rating a star from 1 to 5, the distribution accounts for every rating exactly once. */
  lemma {:induction false} DistributionSumsToCount(ratings: seq<int>)
    requires StarsInRange(ratings)
    ensures var d := Distribution(ratings); d[0] + d[1] + d[2] + d[3] + d[4] == |ratings|
  {
    if ratings != [] {
      assert StarsInRange(ratings[1..]) by {
        forall k | 0 <= k < |ratings[1..]|
          ensures 1 <= ratings[1..][k] <= 5
        {
          assert ratings[1..][k] == ratings[k + 1];
        }
      }
      DistributionSumsToCount(ratings[1..]);
    }
  }

  lemma {:induction false} SumBounds(ratings: seq<int>)
    requires StarsInRange(ratings)
    ensures |ratings| <= SumOf(ratings) <= 5 * |ratings|
  {
    if ratings != [] {
      assert StarsInRange(ratings[1..]) by {
        forall k | 0 <= k < |ratings[1..]|
          ensures 1 <= ratings[1..][k] <= 5
        {
          assert ratings[1..][k] == ratings[k + 1];
        }
      }
      SumBounds(ratings[1..]);
    }
  }

  /** The average is 0 without ratings, and otherwise a value between 1 and 5 stars. */
  lemma AverageBounds(ratings: seq<int>)
    requires StarsInRange(ratings)
    ensures |ratings| == 0 ==> AverageRating(ratings) == 0.0
    ensures |ratings| > 0 ==> 1.0 <= AverageRating(ratings) <= 5.0
  {
    if |ratings| > 0 {
      SumBounds(ratings);
      var n := |ratings| as real;
      var s := SumOf(ratings) as real;
      assert n <= s <= 5.0 * n;
      assert s / n >= 1.0 by {
        assert s >= n * 1.0;
      }
      assert s / n <= 5.0 by {
        assert s <= n * 5.0;
      }
    }
  }

  /** What the detail page shows besides the book itself. */
  datatype BookPage = BookPage(
    book: Book,
    isFavorited: bool,
    canReview: bool,
    averageRating: real,
    ratingDistribution: seq<nat>,
    mainReviews: seq<Review>)

  /** The data LoadBookDataAsync computes for a book and the viewer; none for an unknown book. */
  function LoadBookData(t: Tables, bookId: int, userId: Option<int>): Option<BookPage>
  {
    var i := FindBook(t.books, bookId);
    if i.None? then None
    else
      var ratings := Ratings(t.reviews, bookId);
      Some(BookPage(
        t.books[i.value],
        userId.Some? && Any(t.favorites, (f: FavoriteBook) => f.bookId == bookId && f.userId == userId.value),
        userId.Some? && !Any(t.reviews, (r: Review) => IsMainReviewBy(r, bookId, userId.value)),
        AverageRating(ratings),
        Distribution(ratings),
        SortBy(Filter(t.reviews, (r: Review) => r.bookId == bookId && r.parentReviewId.None?),
               (r: Review) => TimeKey(r.createdAt, false), true)))
  }

  /** OnGetAsync: NotFound for an unknown book; otherwise one more view, then the page data. */
  method ViewBook(ctx: Context, caller: Caller, bookId: int) returns (page: Option<BookPage>)
    requires ctx.Valid()
    modifies ctx
    ensures ctx.Db() == BumpViews(old(ctx.Db()), bookId)
    ensures ctx.Valid()
    ensures page == LoadBookData(ctx.Db(), bookId, CallerId(caller))
  {
    BumpViewsSpec(ctx.Db(), bookId);
    var i := FindBook(ctx.books, bookId);
    if i.None? {
      return None;
    }
    var b := ctx.books[i.value];
    assert b in ctx.books;
    ctx.books := ctx.books[i.value := b.(viewCount := Some(Inc32(OrZero(b.viewCount))))];
    page := LoadBookData(ctx.Db(), bookId, CallerId(caller));
  }

  // ---------------------------------------------------------------------------
  // Review upsert (OnPostAsync)

  datatype ReviewOutcome =
    | ReviewUnauthorized
    | ReviewRedisplayed      // invalid input: the page is shown again through OnGetAsync
    | ReviewSaved            // redirect back to the book
    | ReviewSaveFailed       // SaveChanges rejects a review of an unknown book or user

  /** A new top-level review: both counters start at the column default 0. */
  function NewMainReview(id: int, bookId: int, userId: int, rating: int, commentText: Option<string>, now: Time): Review
  {
    Review(id, bookId, userId, None, commentText, Some(0), Some(0), Some(now), Some(now), Some(rating))
  }

  function SubmitReviewSpec(t: Tables, userId: Option<int>, bookId: int, rating: int,
                            commentText: Option<string>, modelValid: bool, now: Time): (Tables, ReviewOutcome)
    requires BooksOk(t.books)
  {
    if userId.None? then (t, ReviewUnauthorized)
    else if rating < 1 || rating > 5 || !modelValid then (BumpViews(t, bookId), ReviewRedisplayed)
    else
      var i := FindMainReview(t.reviews, bookId, userId.value);
      if i.Some? then
        var r := t.reviews[i.value];
        (t.(reviews := t.reviews[i.value := r.(rating := Some(rating), commentText := commentText, updatedAt := Some(now))]),
         ReviewSaved)
      else if bookId !in BookIds(t.books) || userId.value !in UserIds(t.users) then (t, ReviewSaveFailed)
      else
        (t.(reviews := t.reviews + [NewMainReview(t.nextId, bookId, userId.value, rating, commentText, now)],
            nextId := t.nextId + 1),
         ReviewSaved)
  }

  /** Creates or overwrites the caller's top-level review of a book. */
  method SubmitReview(ctx: Context, caller: Caller, bookId: int, rating: int, commentText: Option<string>,
                      modelValid: bool, now: Time) returns (res: ReviewOutcome)
    requires ctx.Valid()
    modifies ctx
    ensures (ctx.Db(), res) ==
      SubmitReviewSpec(old(ctx.Db()), CallerId(caller), bookId, rating, commentText, modelValid, now)
    ensures ctx.Valid()
  {
    ghost var t := ctx.Db();
    var userId := CallerId(caller);
    SubmitReviewKeepsValid(t, userId, bookId, rating, commentText, modelValid, now);
    if userId.None? {
      return ReviewUnauthorized;
    }
    if rating < 1 || rating > 5 || !modelValid {
      var _ := ViewBook(ctx, caller, bookId);
      return ReviewRedisplayed;
    }
    var existing := FindMainReview(ctx.reviews, bookId, userId.value);
    if existing.Some? {
      var r := ctx.reviews[existing.value];
      ctx.reviews := ctx.reviews[existing.value := r.(rating := Some(rating), commentText := commentText,
                                                      updatedAt := Some(now))];
    } else {
      if bookId !in BookIds(ctx.books) || userId.value !in UserIds(ctx.users) {
        return ReviewSaveFailed;
      }
      var id := ctx.NewId();
      ctx.reviews := ctx.reviews + [NewMainReview(id, bookId, userId.value, rating, commentText, now)];
    }
    res := ReviewSaved;
  }

  /** When the lookup finds no top-level review by the user for the book, there is none. */
  lemma NoMainReview(reviews: seq<Review>, bookId: int, userId: int)
    requires FindMainReview(reviews, bookId, userId).None?
    ensures forall x :: x in reviews && x.parentReviewId.None? ==> (x.bookId, x.userId) != (bookId, userId)
  {
    forall x | x in reviews && x.parentReviewId.None?
      ensures (x.bookId, x.userId) != (bookId, userId)
    {
      var k :| 0 <= k < |reviews| && reviews[k] == x;
      assert !IsMainReviewBy(reviews[k], bookId, userId);
    }
  }

  lemma SubmitReviewKeepsValid(t: Tables, userId: Option<int>, bookId: int, rating: int,
                               commentText: Option<string>, modelValid: bool, now: Time)
    requires Valid(t)
    ensures Valid(SubmitReviewSpec(t, userId, bookId, rating, commentText, modelValid, now).0)
  {
    var t' := SubmitReviewSpec(t, userId, bookId, rating, commentText, modelValid, now).0;
    if userId.Some? && 1 <= rating <= 5 && modelValid {
      var i := FindMainReview(t.reviews, bookId, userId.value);
      if i.Some? {
        var r := t.reviews[i.value];
        var r' := r.(rating := Some(rating), commentText := commentText, updatedAt := Some(now));
        assert t' == t.(reviews := t.reviews[i.value := r']);
        assert r in t.reviews;
        ReviewsReplaceOk(t.reviews, i.value, r', UserIds(t.users), BookIds(t.books), t.nextId);
      } else if bookId in BookIds(t.books) && userId.value in UserIds(t.users) {
        var r := NewMainReview(t.nextId, bookId, userId.value, rating, commentText, now);
        assert t' == t.(reviews := t.reviews + [r], nextId := t.nextId + 1);
        NoMainReview(t.reviews, bookId, userId.value);
        InsertReviewKeepsValid(t, r);
      }
    } else if userId.Some? {
      BumpViewsSpec(t, bookId);
    }
  }

  /** An invalid rating writes no review: the only change is the extra view of the redisplayed page. */
  lemma InvalidRatingWritesNoReview(t: Tables, userId: Option<int>, bookId: int, rating: int,
                                    commentText: Option<string>, modelValid: bool, now: Time)
    requires Valid(t)
    requires rating < 1 || rating > 5
    ensures var (t', res) := SubmitReviewSpec(t, userId, bookId, rating, commentText, modelValid, now);
      t'.reviews == t.reviews && t' == t.(books := t'.books) && res != ReviewSaved
  {
    BumpViewsSpec(t, bookId);
  }

  /** A saved submission leaves exactly one top-level review by the caller for the book, holding the submitted rating and text. */
  lemma SubmitReviewLeavesOne(t: Tables, userId: Option<int>, bookId: int, rating: int,
                              commentText: Option<string>, modelValid: bool, now: Time)
    requires Valid(t)
    ensures var (t', res) := SubmitReviewSpec(t, userId, bookId, rating, commentText, modelValid, now);
      res == ReviewSaved ==>
        userId.Some? &&
        Count(t'.reviews, (r: Review) => IsMainReviewBy(r, bookId, userId.value)) == 1 &&
        exists k :: 0 <= k < |t'.reviews| && IsMainReviewBy(t'.reviews[k], bookId, userId.value) &&
          t'.reviews[k].rating == Some(rating) && t'.reviews[k].commentText == commentText
  {
    var (t', res) := SubmitReviewSpec(t, userId, bookId, rating, commentText, modelValid, now);
    if res == ReviewSaved {
      SubmitReviewKeepsValid(t, userId, bookId, rating, commentText, modelValid, now);
      var p := (r: Review) => IsMainReviewBy(r, bookId, userId.value);
      var i := FindMainReview(t.reviews, bookId, userId.value);
      var k := if i.Some? then i.value else |t.reviews|;
      assert p(t'.reviews[k]);
      assert ReviewsOk(t'.reviews);
      forall j | 0 <= j < |t'.reviews| && j != k
        ensures !p(t'.reviews[j])
      {
      }
      CountExactlyOne(t'.reviews, p, k);
    }
  }

  /** An existing top-level review keeps its id, position, creation time and counters: only rating, text and update time change. */
  lemma SubmitReviewOverwrites(t: Tables, userId: int, bookId: int, rating: int,
                               commentText: Option<string>, now: Time)
    requires BooksOk(t.books) && 1 <= rating <= 5
    requires FindMainReview(t.reviews, bookId, userId).Some?
    ensures var t' := SubmitReviewSpec(t, Some(userId), bookId, rating, commentText, true, now).0;
      var k := FindMainReview(t.reviews, bookId, userId).value;
      |t'.reviews| == |t.reviews| && t' == t.(reviews := t'.reviews) &&
      (forall j :: 0 <= j < |t.reviews| && j != k ==> t'.reviews[j] == t.reviews[j]) &&
      t'.reviews[k] == t.reviews[k].(rating := Some(rating), commentText := commentText, updatedAt := Some(now))
  {
  }

  // ---------------------------------------------------------------------------
  // Replies (OnPostReplyReviewAsync)

  datatype ReplyOutcome =
    | ReplyNotSignedIn
    | ReplyUnknownUser
    | ReplyEmpty
    | ReplyParentMissing
    | ReplySent
    | ReplySaveFailed        // SaveChanges rejects a reply by a user who does not exist

  function NewReply(id: int, parent: Review, userId: int, text: string, now: Time): Review
  {
    Review(id, parent.bookId, userId, Some(parent.reviewId), Some(Trim(text)), Some(0), Some(0), Some(now), Some(now), None)
  }

  function ReplySpec(t: Tables, caller: Caller, parentReviewId: int, commentText: Option<string>, now: Time): (Tables, ReplyOutcome)
  {
    if caller.Anonymous? then (t, ReplyNotSignedIn)
    else if caller.claimId.None? then (t, ReplyUnknownUser)
    else if IsNullOrWhiteSpace(commentText) then (t, ReplyEmpty)
    else
      var p := FindReview(t.reviews, parentReviewId);
      if p.None? then (t, ReplyParentMissing)
      else if caller.claimId.value !in UserIds(t.users) then (t, ReplySaveFailed)
      else
        (t.(reviews := t.reviews + [NewReply(t.nextId, t.reviews[p.value], caller.claimId.value, commentText.value, now)],
            nextId := t.nextId + 1),
         ReplySent)
  }

  /** Adds a reply under an existing review. */
  method ReplyReview(ctx: Context, caller: Caller, parentReviewId: int, commentText: Option<string>, now: Time)
    returns (res: ReplyOutcome)
    requires ctx.Valid()
    modifies ctx
    ensures (ctx.Db(), res) == ReplySpec(old(ctx.Db()), caller, parentReviewId, commentText, now)
    ensures ctx.Valid()
  {
    ghost var t := ctx.Db();
    ReplyKeepsValid(t, caller, parentReviewId, commentText, now);
    if caller.Anonymous? {
      return ReplyNotSignedIn;
    }
    var userId := caller.claimId;
    if userId.None? {
      return ReplyUnknownUser;
    }
    if IsNullOrWhiteSpace(commentText) {
      return ReplyEmpty;
    }
    var p := FindReview(ctx.reviews, parentReviewId);
    if p.None? {
      return ReplyParentMissing;
    }
    if userId.value !in UserIds(ctx.users) {
      return ReplySaveFailed;
    }
    var parent := ctx.reviews[p.value];
    var id := ctx.NewId();
    ctx.reviews := ctx.reviews + [NewReply(id, parent, userId.value, commentText.value, now)];
    res := ReplySent;
  }

  lemma ReplyKeepsValid(t: Tables, caller: Caller, parentReviewId: int, commentText: Option<string>, now: Time)
    requires Valid(t)
    ensures Valid(ReplySpec(t, caller, parentReviewId, commentText, now).0)
  {
    var (t', res) := ReplySpec(t, caller, parentReviewId, commentText, now);
    if res == ReplySent {
      var p := FindReview(t.reviews, parentReviewId).value;
      assert t.reviews[p] in t.reviews;
      InsertReviewKeepsValid(t, NewReply(t.nextId, t.reviews[p], caller.claimId.value, commentText.value, now));
    }
  }

  /** A reply is one new row under the parent: same book, the caller as author, the trimmed text (never blank), no rating. */
  lemma ReplyShape(t: Tables, caller: Caller, parentReviewId: int, commentText: Option<string>, now: Time)
    ensures var (t', res) := ReplySpec(t, caller, parentReviewId, commentText, now);
      (res == ReplySent ==>
        exists parent :: parent in t.reviews && parent.reviewId == parentReviewId &&
          t'.reviews == t.reviews + [t'.reviews[|t.reviews|]] &&
          var r := t'.reviews[|t.reviews|];
          r.parentReviewId == Some(parentReviewId) && r.bookId == parent.bookId &&
          Some(r.userId) == CallerId(caller) && r.rating.None? &&
          r.commentText == Some(Trim(commentText.value)) && r.commentText.value != [] &&
          !IsWhiteSpace(r.commentText.value[0]) && !IsWhiteSpace(r.commentText.value[|r.commentText.value| - 1])) &&
      (res != ReplySent ==> t' == t)
  {
    var (t', res) := ReplySpec(t, caller, parentReviewId, commentText, now);
    if res == ReplySent {
      var p := FindReview(t.reviews, parentReviewId).value;
      TrimSpec(commentText.value);
      assert t.reviews[p] in t.reviews;
      assert t'.reviews == t.reviews + [t'.reviews[|t.reviews|]];
    }
  }

}
