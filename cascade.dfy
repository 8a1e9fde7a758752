// The database's own reaction to a deleted review: `ON DELETE CASCADE` on
// `reviews.parent_review_id` (SbooksContext.cs, the ParentReview relation)
// removes every reply whose parent is gone, then the replies of those, and
// so on. The rows left are the largest set of reviews whose parents are
// all still there.
module Cascade {
  import opened Seqs
  import opened Entities
  import opened Schema

  /** The review's parent, if it has one, is among `ids`. */
  predicate ParentIn(r: Review, ids: set<int>)
  {
    r.parentReviewId.Some? ==> r.parentReviewId.value in ids
  }

  /** One round of the cascade: the replies whose parent is missing go. */
  function DropOrphans(rs: seq<Review>): seq<Review>
  {
    var ids := ReviewIds(rs);
    Filter(rs, (r: Review) => ParentIn(r, ids))
  }

  /** Rounds of the cascade until no reply is left without its parent. */
  function Prune(rs: seq<Review>): (r: seq<Review>)
    ensures forall x :: x in r ==> x in rs
    decreases |rs|
  {
    var kept := DropOrphans(rs);
    if |kept| == |rs| then rs else Prune(kept)
  }

  /** Every reply's parent is in the list. */
  ghost predicate Closed(rs: seq<Review>)
  {
    forall r :: r in rs ==> ParentIn(r, ReviewIds(rs))
  }

  /** After the cascade every reply's parent exists. */
  lemma {:induction false} PruneClosed(rs: seq<Review>)
    ensures Closed(Prune(rs))
    decreases |rs|
  {
    var ids := ReviewIds(rs);
    var kept := DropOrphans(rs);
    if |kept| == |rs| {
      CountAll(rs, (r: Review) => ParentIn(r, ids));
    } else {
      PruneClosed(kept);
    }
  }

  /** The cascade removes no review whose ancestors all stay: any closed part of the list survives it. */
  lemma {:induction false} PruneGreatest(rs: seq<Review>, keep: seq<Review>)
    requires Closed(keep) && forall x :: x in keep ==> x in rs
    ensures forall x :: x in keep ==> x in Prune(rs)
    decreases |rs|
  {
    var ids := ReviewIds(rs);
    var kept := DropOrphans(rs);
    assert ReviewIds(keep) <= ids;
    assert forall x :: x in keep ==> x in kept;
    if |kept| != |rs| {
      PruneGreatest(kept, keep);
    }
  }

  /** A list already closed is left alone. */
  lemma PruneClosedIsIdentity(rs: seq<Review>)
    requires Closed(rs)
    ensures Prune(rs) == rs
  {
    var ids := ReviewIds(rs);
    FilterAll(rs, (r: Review) => ParentIn(r, ids));
  }

  /** A relation between every earlier and every later row survives the cascade. */
  lemma {:induction false} PrunePairwise(rs: seq<Review>, rel: (Review, Review) -> bool)
    requires Pairwise(rs, rel)
    ensures Pairwise(Prune(rs), rel)
    decreases |rs|
  {
    var ids := ReviewIds(rs);
    var kept := DropOrphans(rs);
    if |kept| != |rs| {
      FilterPairwise(rs, (r: Review) => ParentIn(r, ids), rel);
      PrunePairwise(kept, rel);
    }
  }
}
