// Likes and dislikes on reviews (OnPostLikeReviewAsync of the book detail
// page): a vote row per user and review, and the review's denormalised
// LikeCount / DislikeCount columns that the handler adjusts alongside it.
module ReviewVotes {
  import opened Seqs
  import opened Entities
  import opened Schema
  import opened Store

  datatype VoteOutcome =
    | VoteNotSignedIn
    | VoteUnknownUser
    | VoteReviewMissing
    | Voted(likeCount: int, dislikeCount: int)
    | VoteSaveFailed         // SaveChanges rejects a new vote by a user who does not exist

  /** The caller's vote row on a review, if any. */
  function FindVote(votes: seq<ReviewVote>, userId: int, reviewId: int): Option<nat>
  {
    FirstIndex(votes, (v: ReviewVote) => v.reviewId == reviewId && v.userId == userId)
  }

  /** The caller's vote on a review: 1, -1, or 0 when there is none. */
  function VoteState(votes: seq<ReviewVote>, userId: int, reviewId: int): int
  {
    var i := FindVote(votes, userId, reviewId);
    if i.None? then 0 else votes[i.value].voteType
  }

  /** C# `Math.Max(0, x - 1)` on a 32-bit `int` (the subtraction wraps at the minimum). */
  function DecFloor32(x: int): (r: int)
    requires Int32Min <= x <= Int32Max
    ensures 0 <= r <= Int32Max
    ensures x > 0 ==> r == x - 1
  {
    if x == Int32Min then Int32Max else if x - 1 < 0 then 0 else x - 1
  }

  /** Withdraws a vote of `voteType` from the counters; any type other than 1 counts as a dislike. */
  function Unvote(r: Review, voteType: int): (r': Review)
    requires InInt32(r.likeCount) && InInt32(r.dislikeCount)
    ensures InInt32(r'.likeCount) && InInt32(r'.dislikeCount)
  {
    if voteType == 1 then r.(likeCount := Some(DecFloor32(OrZero(r.likeCount))))
    else r.(dislikeCount := Some(DecFloor32(OrZero(r.dislikeCount))))
  }

  /** Adds a vote of `voteType` to the counters (`(count ?? 0) + 1`, wrapping at 32 bits). */
  function AddVote(r: Review, voteType: int): (r': Review)
    requires InInt32(r.likeCount) && InInt32(r.dislikeCount)
    ensures InInt32(r'.likeCount) && InInt32(r'.dislikeCount)
  {
    if voteType == 1 then r.(likeCount := Some(Inc32(OrZero(r.likeCount))))
    else r.(dislikeCount := Some(Inc32(OrZero(r.dislikeCount))))
  }

  /** The review's counters after a vote of `newType`, given the caller's previous vote type. */
  function Recount(r: Review, prior: Option<int>, newType: int): (r': Review)
    requires InInt32(r.likeCount) && InInt32(r.dislikeCount)
    ensures InInt32(r'.likeCount) && InInt32(r'.dislikeCount)
  {
    if prior.None? then AddVote(r, newType)
    else if prior.value == newType then Unvote(r, prior.value)
    else AddVote(Unvote(r, prior.value), newType)
  }

  /** The vote rows after a vote of `newType`: a first vote is added, the same vote again is removed, another vote replaces it. */
  function NextVotes(votes: seq<ReviewVote>, userId: int, reviewId: int, newType: int, now: Time): seq<ReviewVote>
  {
    var i := FindVote(votes, userId, reviewId);
    if i.None? then votes + [ReviewVote(userId, reviewId, newType, Some(now))]
    else if votes[i.value].voteType == newType then RemoveAt(votes, i.value)
    else votes[i.value := votes[i.value].(voteType := newType, createdAt := Some(now))]
  }

  function PriorVote(votes: seq<ReviewVote>, userId: int, reviewId: int): Option<int>
  {
    var i := FindVote(votes, userId, reviewId);
    if i.None? then None else Some(votes[i.value].voteType)
  }

  function VoteSpec(t: Tables, caller: Caller, reviewId: int, isLike: bool, now: Time): (Tables, VoteOutcome)
    requires CountersInRange(t.reviews)
  {
    if caller.Anonymous? then (t, VoteNotSignedIn)
    else if caller.claimId.None? then (t, VoteUnknownUser)
    else
      var userId := caller.claimId.value;
      var ri := FindReview(t.reviews, reviewId);
      if ri.None? then (t, VoteReviewMissing)
      else
        var prior := PriorVote(t.votes, userId, reviewId);
        if prior.None? && userId !in UserIds(t.users) then (t, VoteSaveFailed)
        else
          var r := t.reviews[ri.value];
          assert r in t.reviews;
          var newType := if isLike then 1 else -1;
          var r' := Recount(r, prior, newType);
          (t.(votes := NextVotes(t.votes, userId, reviewId, newType, now), reviews := t.reviews[ri.value := r']),
           Voted(OrZero(r'.likeCount), OrZero(r'.dislikeCount)))
  }

  /** Likes or dislikes a review and answers with the review's new counters. */
  method LikeReview(ctx: Context, caller: Caller, reviewId: int, isLike: bool, now: Time) returns (res: VoteOutcome)
    requires ctx.Valid()
    modifies ctx
    ensures (ctx.Db(), res) == VoteSpec(old(ctx.Db()), caller, reviewId, isLike, now)
    ensures ctx.Valid()
  {
    ghost var t := ctx.Db();
    VoteKeepsValid(t, caller, reviewId, isLike, now);
    if caller.Anonymous? {
      return VoteNotSignedIn;
    }
    var userId := caller.claimId;
    if userId.None? {
      return VoteUnknownUser;
    }
    var existingVote := FindVote(ctx.votes, userId.value, reviewId);
    var ri := FindReview(ctx.reviews, reviewId);
    if ri.None? {
      return VoteReviewMissing;
    }
    var review := ctx.reviews[ri.value];
    assert review in ctx.reviews;
    var newVoteType := if isLike then 1 else -1;
    if existingVote.Some? {
      var v := ctx.votes[existingVote.value];
      review := Unvote(review, v.voteType);
      if v.voteType == newVoteType {
        ctx.votes := RemoveAt(ctx.votes, existingVote.value);
      } else {
        ctx.votes := ctx.votes[existingVote.value := v.(voteType := newVoteType, createdAt := Some(now))];
        review := AddVote(review, newVoteType);
      }
    } else {
      if userId.value !in UserIds(ctx.users) {
        return VoteSaveFailed;
      }
      ctx.votes := ctx.votes + [ReviewVote(userId.value, reviewId, newVoteType, Some(now))];
      review := AddVote(review, newVoteType);
    }
    ctx.reviews := ctx.reviews[ri.value := review];
    res := Voted(OrZero(review.likeCount), OrZero(review.dislikeCount));
  }

  /** The vote rows after a vote keep their key and references, given a review that exists and a user who exists or has voted. */
  lemma NextVotesOk(votes: seq<ReviewVote>, userId: int, reviewId: int, newType: int, now: Time,
                    reviewIds: set<int>, userIds: set<int>)
    requires VotesOk(votes) && VotesRefsOk(votes, reviewIds, userIds)
    requires reviewId in reviewIds && (PriorVote(votes, userId, reviewId).Some? || userId in userIds)
    ensures var next := NextVotes(votes, userId, reviewId, newType, now);
      VotesOk(next) && VotesRefsOk(next, reviewIds, userIds)
  {
    var vi := FindVote(votes, userId, reviewId);
    if vi.None? {
      forall w | w in votes
        ensures (w.userId, w.reviewId) != (userId, reviewId)
      {
        var k :| 0 <= k < |votes| && votes[k] == w;
      }
      VotesAppendOk(votes, ReviewVote(userId, reviewId, newType, Some(now)), reviewIds, userIds);
    } else if votes[vi.value].voteType == newType {
      VotesRemoveOk(votes, vi.value, reviewIds, userIds);
    } else {
      VotesReplaceOk(votes, vi.value, votes[vi.value].(voteType := newType, createdAt := Some(now)), reviewIds, userIds);
    }
  }

  lemma VoteKeepsValid(t: Tables, caller: Caller, reviewId: int, isLike: bool, now: Time)
    requires Valid(t)
    ensures Valid(VoteSpec(t, caller, reviewId, isLike, now).0)
  {
    var (t', res) := VoteSpec(t, caller, reviewId, isLike, now);
    if res.Voted? {
      var userId := caller.claimId.value;
      var ri := FindReview(t.reviews, reviewId).value;
      var newType := if isLike then 1 else -1;
      NextVotesOk(t.votes, userId, reviewId, newType, now, ReviewIds(t.reviews), UserIds(t.users));
      ReviewsReplaceOk(t.reviews, ri, t'.reviews[ri], UserIds(t.users), BookIds(t.books), t.nextId);
    }
  }

  // ---------------------------------------------------------------------------
  // The vote row as a three-state machine.

  lemma FindVoteAfter(votes: seq<ReviewVote>, userId: int, reviewId: int, newType: int, now: Time)
    requires VotesOk(votes)
    ensures var i := FindVote(votes, userId, reviewId);
      var next := NextVotes(votes, userId, reviewId, newType, now);
      var j := FindVote(next, userId, reviewId);
      (i.None? ==> j == Some(|votes|)) &&
      (i.Some? && votes[i.value].voteType == newType ==> j.None?) &&
      (i.Some? && votes[i.value].voteType != newType ==> j == i)
  {
    var i := FindVote(votes, userId, reviewId);
    var next := NextVotes(votes, userId, reviewId, newType, now);
    var j := FindVote(next, userId, reviewId);
    if i.None? {
      forall k | 0 <= k < |votes|
        ensures !(next[k].reviewId == reviewId && next[k].userId == userId)
      {
        assert next[k] == votes[k];
      }
      assert next[|votes|].reviewId == reviewId && next[|votes|].userId == userId;
    } else if votes[i.value].voteType == newType {
      forall k | 0 <= k < |next|
        ensures !(next[k].reviewId == reviewId && next[k].userId == userId)
      {
        var k' := if k < i.value then k else k + 1;
        assert next[k] == votes[k'];
      }
    } else {
      forall k | 0 <= k < i.value
        ensures !(next[k].reviewId == reviewId && next[k].userId == userId)
      {
        assert next[k] == votes[k];
      }
      assert next[i.value].reviewId == reviewId && next[i.value].userId == userId;
    }
  }

  /** Voting the current choice again withdraws it; any other vote becomes the caller's vote. */
  lemma VoteTransitions(t: Tables, userId: int, reviewId: int, isLike: bool, now: Time)
    requires VotesOk(t.votes) && CountersInRange(t.reviews)
    requires reviewId in ReviewIds(t.reviews) && userId in UserIds(t.users)
    ensures var (t', res) := VoteSpec(t, SignedIn(Some(userId)), reviewId, isLike, now);
      var prior := VoteState(t.votes, userId, reviewId);
      var wanted := if isLike then 1 else -1;
      res.Voted? && VoteState(t'.votes, userId, reviewId) == (if prior == wanted then 0 else wanted)
  {
    FindVoteAfter(t.votes, userId, reviewId, if isLike then 1 else -1, now);
  }

  // ---------------------------------------------------------------------------
  // The counters follow the vote rows.

  /** How the like and dislike rows of review `x` change with a vote on review `reviewId`. */
  lemma NextVotesCounts(votes: seq<ReviewVote>, userId: int, reviewId: int, newType: int, now: Time, x: int)
    ensures var prior := PriorVote(votes, userId, reviewId);
      var next := NextVotes(votes, userId, reviewId, newType, now);
      var changed := prior != Some(newType);
      LikesOf(next, x) == LikesOf(votes, x) - (if x == reviewId && prior == Some(1) then 1 else 0)
        + (if x == reviewId && newType == 1 && changed then 1 else 0) &&
      DislikesOf(next, x) == DislikesOf(votes, x) - (if x == reviewId && prior == Some(-1) then 1 else 0)
        + (if x == reviewId && newType == -1 && changed then 1 else 0)
  {
    var i := FindVote(votes, userId, reviewId);
    if i.None? {
      var v := ReviewVote(userId, reviewId, newType, Some(now));
      CountAppendOne(votes, v, LikeOn(x));
      CountAppendOne(votes, v, DislikeOn(x));
    } else if votes[i.value].voteType == newType {
      CountRemove(votes, i.value, LikeOn(x));
      CountRemove(votes, i.value, DislikeOn(x));
    } else {
      var v := votes[i.value].(voteType := newType, createdAt := Some(now));
      CountUpdate(votes, i.value, v, LikeOn(x));
      CountUpdate(votes, i.value, v, DislikeOn(x));
    }
  }

  /** The counters of the voted review follow its rows, provided they did before and no counter is at the 32-bit maximum. */
  lemma RecountFollowsRows(r: Review, votes: seq<ReviewVote>, userId: int, newType: int, now: Time)
    requires InInt32(r.likeCount) && InInt32(r.dislikeCount)
    requires newType == 1 || newType == -1
    requires forall w :: w in votes ==> w.voteType == 1 || w.voteType == -1
    requires OrZero(r.likeCount) == LikesOf(votes, r.reviewId) && OrZero(r.dislikeCount) == DislikesOf(votes, r.reviewId)
    requires |votes| < Int32Max
    ensures var r' := Recount(r, PriorVote(votes, userId, r.reviewId), newType);
      var next := NextVotes(votes, userId, r.reviewId, newType, now);
      OrZero(r'.likeCount) == LikesOf(next, r.reviewId) && OrZero(r'.dislikeCount) == DislikesOf(next, r.reviewId)
  {
    var prior := PriorVote(votes, userId, r.reviewId);
    if prior.Some? {
      assert votes[FindVote(votes, userId, r.reviewId).value] in votes;
    }
    NextVotesCounts(votes, userId, r.reviewId, newType, now, r.reviewId);
  }

  /** A vote keeps every vote row a like or a dislike. */
  lemma NextVotesTypes(votes: seq<ReviewVote>, userId: int, reviewId: int, newType: int, now: Time)
    requires VoteTypesOk(votes) && (newType == 1 || newType == -1)
    ensures VoteTypesOk(NextVotes(votes, userId, reviewId, newType, now))
  {
    var next := NextVotes(votes, userId, reviewId, newType, now);
    var i := FindVote(votes, userId, reviewId);
    forall w | w in next
      ensures w.voteType == 1 || w.voteType == -1
    {
      var k :| 0 <= k < |next| && next[k] == w;
      if i.None? {
        if k < |votes| {
          assert votes[k] in votes;
        }
      } else if votes[i.value].voteType == newType {
        var k' := if k < i.value then k else k + 1;
        assert next[k] == votes[k'];
        assert votes[k'] in votes;
      } else if k != i.value {
        assert votes[k] in votes;
      }
    }
  }

  /** Recounting the voted review, and leaving the others alone, keeps every review's counters equal to its rows. */
  lemma CountersFollowVote(reviews: seq<Review>, votes: seq<ReviewVote>, ri: nat, userId: int, newType: int, now: Time)
    requires ReviewsOk(reviews) && ri < |reviews|
    requires VoteTypesOk(votes) && CountersFollow(reviews, votes) && |votes| < Int32Max
    requires newType == 1 || newType == -1
    ensures var reviewId := reviews[ri].reviewId;
      CountersFollow(reviews[ri := Recount(reviews[ri], PriorVote(votes, userId, reviewId), newType)],
                     NextVotes(votes, userId, reviewId, newType, now))
  {
    var r := reviews[ri];
    var reviewId := r.reviewId;
    var s := reviews[ri := Recount(r, PriorVote(votes, userId, reviewId), newType)];
    var next := NextVotes(votes, userId, reviewId, newType, now);
    assert r in reviews;
    RecountFollowsRows(r, votes, userId, newType, now);
    forall q | q in s
      ensures OrZero(q.likeCount) == LikesOf(next, q.reviewId)
      ensures OrZero(q.dislikeCount) == DislikesOf(next, q.reviewId)
    {
      var k :| 0 <= k < |s| && s[k] == q;
      if k != ri {
        assert reviews[k] in reviews && q.reviewId != reviewId;
        NextVotesCounts(votes, userId, reviewId, newType, now, q.reviewId);
      }
    }
  }

  /**
   * The central property of the vote engine: when every review's counters
   * equal its like and dislike rows, they still do after any vote request.
   * The vote table is assumed smaller than the 32-bit counter range.
   */
  lemma VoteKeepsCounters(t: Tables, caller: Caller, reviewId: int, isLike: bool, now: Time)
    requires ReviewsOk(t.reviews) && CountersMatch(t)
    requires |t.votes| < Int32Max
    ensures CountersMatch(VoteSpec(t, caller, reviewId, isLike, now).0)
  {
    var (t', res) := VoteSpec(t, caller, reviewId, isLike, now);
    if res.Voted? {
      var userId := caller.claimId.value;
      var ri := FindReview(t.reviews, reviewId).value;
      var newType := if isLike then 1 else -1;
      NextVotesTypes(t.votes, userId, reviewId, newType, now);
      CountersFollowVote(t.reviews, t.votes, ri, userId, newType, now);
    }
  }

  /** After a vote, the counters the handler answers with are the review's like and dislike rows. */
  lemma VoteReportsRowCounts(t: Tables, caller: Caller, reviewId: int, isLike: bool, now: Time)
    requires ReviewsOk(t.reviews) && CountersMatch(t)
    requires |t.votes| < Int32Max
    ensures var (t', res) := VoteSpec(t, caller, reviewId, isLike, now);
      res.Voted? ==>
        res.likeCount == LikesOf(t'.votes, reviewId) && res.dislikeCount == DislikesOf(t'.votes, reviewId)
  {
    var (t', res) := VoteSpec(t, caller, reviewId, isLike, now);
    if res.Voted? {
      VoteKeepsCounters(t, caller, reviewId, isLike, now);
      var ri := FindReview(t.reviews, reviewId).value;
      assert t'.reviews[ri] in t'.reviews;
    }
  }

  /** The vote rows of every other (user, review) pair are untouched. */
  lemma NextVotesFrame(votes: seq<ReviewVote>, userId: int, reviewId: int, newType: int, now: Time)
    ensures var next := NextVotes(votes, userId, reviewId, newType, now);
      forall v: ReviewVote :: (v.userId, v.reviewId) != (userId, reviewId) ==> (v in next <==> v in votes)
  {
    var next := NextVotes(votes, userId, reviewId, newType, now);
    var i := FindVote(votes, userId, reviewId);
    forall v: ReviewVote | (v.userId, v.reviewId) != (userId, reviewId) && v in votes
      ensures v in next
    {
      var j :| 0 <= j < |votes| && votes[j] == v;
      if i.None? {
        assert next[j] == v;
      } else if votes[i.value].voteType == newType {
        if j < i.value {
          assert next[j] == v;
        } else {
          assert next[j - 1] == v;
        }
      } else {
        assert next[j] == v;
      }
    }
    forall v: ReviewVote | (v.userId, v.reviewId) != (userId, reviewId) && v in next
      ensures v in votes
    {
      var j :| 0 <= j < |next| && next[j] == v;
      if i.Some? && votes[i.value].voteType != newType {
        assert votes[j] == v;
      }
    }
  }

  /** A vote changes only the target review's counters and the caller's vote row on it. */
  lemma VoteFrame(t: Tables, caller: Caller, reviewId: int, isLike: bool, now: Time)
    requires CountersInRange(t.reviews)
    ensures var t' := VoteSpec(t, caller, reviewId, isLike, now).0;
      t' == t.(reviews := t'.reviews, votes := t'.votes) &&
      |t'.reviews| == |t.reviews| &&
      (forall k :: 0 <= k < |t.reviews| ==>
        t'.reviews[k] == t.reviews[k] ||
        (t.reviews[k].reviewId == reviewId &&
         t'.reviews[k] == t.reviews[k].(likeCount := t'.reviews[k].likeCount, dislikeCount := t'.reviews[k].dislikeCount))) &&
      (forall v: ReviewVote :: (CallerId(caller).None? || (v.userId, v.reviewId) != (CallerId(caller).value, reviewId)) ==>
        (v in t'.votes <==> v in t.votes))
  {
    if caller.SignedIn? && caller.claimId.Some? {
      NextVotesFrame(t.votes, caller.claimId.value, reviewId, if isLike then 1 else -1, now);
    }
  }

  /** From no vote, voting the same way twice gives back the original vote rows. */
  lemma NextVotesTwice(votes: seq<ReviewVote>, userId: int, reviewId: int, newType: int, now1: Time, now2: Time)
    requires VotesOk(votes) && FindVote(votes, userId, reviewId).None?
    ensures var v1 := NextVotes(votes, userId, reviewId, newType, now1);
      PriorVote(v1, userId, reviewId) == Some(newType) &&
      NextVotes(v1, userId, reviewId, newType, now2) == votes
  {
    FindVoteAfter(votes, userId, reviewId, newType, now1);
    var v1 := NextVotes(votes, userId, reviewId, newType, now1);
    assert RemoveAt(v1, |votes|) == votes;
  }

  /** Adding a vote and withdrawing it again restores non-null counters below the 32-bit maximum. */
  lemma RecountTwice(r: Review, newType: int)
    requires r.likeCount.Some? && r.dislikeCount.Some?
    requires 0 <= r.likeCount.value < Int32Max && 0 <= r.dislikeCount.value < Int32Max
    ensures Recount(Recount(r, None, newType), Some(newType), newType) == r
  {
  }

  /** The effect of a vote that reaches SaveChanges, spelled out. */
  lemma VotedShape(t: Tables, userId: int, reviewId: int, isLike: bool, now: Time, ri: nat)
    requires CountersInRange(t.reviews) && FindReview(t.reviews, reviewId) == Some(ri)
    requires PriorVote(t.votes, userId, reviewId).Some? || userId in UserIds(t.users)
    ensures ri < |t.reviews| && InInt32(t.reviews[ri].likeCount) && InInt32(t.reviews[ri].dislikeCount)
    ensures var newType := if isLike then 1 else -1;
      VoteSpec(t, SignedIn(Some(userId)), reviewId, isLike, now).0 ==
        t.(votes := NextVotes(t.votes, userId, reviewId, newType, now),
           reviews := t.reviews[ri := Recount(t.reviews[ri], PriorVote(t.votes, userId, reviewId), newType)])
  {
    assert t.reviews[ri] in t.reviews;
  }

  /** From no vote, voting twice the same way restores the database exactly (counters that are not null and below the 32-bit maximum). */
  lemma VoteTwiceRestores(t: Tables, userId: int, reviewId: int, isLike: bool, now1: Time, now2: Time)
    requires VotesOk(t.votes) && CountersInRange(t.reviews)
    requires reviewId in ReviewIds(t.reviews) && userId in UserIds(t.users)
    requires FindVote(t.votes, userId, reviewId).None?
    requires forall r :: r in t.reviews && r.reviewId == reviewId ==>
      r.likeCount.Some? && r.dislikeCount.Some? && 0 <= r.likeCount.value < Int32Max && 0 <= r.dislikeCount.value < Int32Max
    ensures var t1 := VoteSpec(t, SignedIn(Some(userId)), reviewId, isLike, now1).0;
      CountersInRange(t1.reviews) && VoteSpec(t1, SignedIn(Some(userId)), reviewId, isLike, now2).0 == t
  {
    var caller := SignedIn(Some(userId));
    var newType := if isLike then 1 else -1;
    var ri := FindReview(t.reviews, reviewId).value;
    var r := t.reviews[ri];
    assert r in t.reviews;
    VotedShape(t, userId, reviewId, isLike, now1, ri);
    var t1 := VoteSpec(t, caller, reviewId, isLike, now1).0;
    var r1 := Recount(r, None, newType);
    assert t1.reviews == t.reviews[ri := r1];
    assert CountersInRange(t1.reviews) by {
      assert forall q :: q in t1.reviews ==> q in t.reviews || q == r1;
    }
    NextVotesTwice(t.votes, userId, reviewId, newType, now1, now2);
    FindKeyUpdate(t.reviews, ri, r1, ReviewKey, reviewId);
    VotedShape(t1, userId, reviewId, isLike, now2, ri);
    RecountTwice(r, newType);
    assert t1.reviews[ri := r] == t.reviews;
  }
}
