// The favourite toggle shared by the book detail page
// (Details.OnPostToggleFavoriteAsync) and the favourite API
// (Api/Favorite.OnPostAsync): both apply the same logic to a (user, book)
// pair; one stamps the new row's time in the database, the other in the
// application, and the model stamps it with the `now` parameter.
module Favorites {
  import opened Seqs
  import opened Entities
  import opened Schema
  import opened Store

  datatype ToggleOutcome =
    | NotSignedIn                    // "you need to sign in"
    | UnknownUser                    // "cannot identify the user"
    | Toggled(isFavorited: bool)
    | SaveFailed                     // SaveChanges rejects a row whose book or user does not exist

  function FindFavorite(favorites: seq<FavoriteBook>, userId: int, bookId: int): Option<nat>
  {
    FirstIndex(favorites, (f: FavoriteBook) => f.bookId == bookId && f.userId == userId)
  }

  /** The (user, book) pairs of the favourites table. */
  function FavPairs(favorites: seq<FavoriteBook>): set<(int, int)>
  {
    set f | f in favorites :: (f.userId, f.bookId)
  }

  predicate IsFavorite(t: Tables, userId: int, bookId: int)
  {
    (userId, bookId) in FavPairs(t.favorites)
  }

  /** The state after one toggle request, and its JSON answer. */
  function ToggleSpec(t: Tables, caller: Caller, bookId: int, now: Time): (Tables, ToggleOutcome)
  {
    if caller.Anonymous? then (t, NotSignedIn)
    else if caller.claimId.None? then (t, UnknownUser)
    else
      var userId := caller.claimId.value;
      var i := FindFavorite(t.favorites, userId, bookId);
      if i.Some? then
        (t.(favorites := RemoveAt(t.favorites, i.value)), Toggled(false))
      else if bookId !in BookIds(t.books) || userId !in UserIds(t.users) then
        (t, SaveFailed)
      else
        (t.(favorites := t.favorites + [FavoriteBook(userId, bookId, Some(now))]), Toggled(true))
  }

  /** Removes the caller's favourite of the book if there is one, otherwise adds it. */
  method ToggleFavorite(ctx: Context, caller: Caller, bookId: int, now: Time) returns (res: ToggleOutcome)
    requires ctx.Valid()
    modifies ctx
    ensures (ctx.Db(), res) == ToggleSpec(old(ctx.Db()), caller, bookId, now)
    ensures ctx.Valid()
  {
    ghost var t := ctx.Db();
    if caller.Anonymous? {
      return NotSignedIn;
    }
    var userId := caller.claimId;
    if userId.None? {
      return UnknownUser;
    }
    var existing := FindFavorite(ctx.favorites, userId.value, bookId);
    if existing.Some? {
      ctx.favorites := RemoveAt(ctx.favorites, existing.value);
      res := Toggled(false);
    } else {
      if bookId !in BookIds(ctx.books) || userId.value !in UserIds(ctx.users) {
        return SaveFailed;
      }
      ctx.favorites := ctx.favorites + [FavoriteBook(userId.value, bookId, Some(now))];
      res := Toggled(true);
    }
    ToggleKeepsValid(t, caller, bookId, now);
  }

  // ---------------------------------------------------------------------------

  lemma FavPairsSpec(favorites: seq<FavoriteBook>, userId: int, bookId: int)
    ensures FindFavorite(favorites, userId, bookId).Some? <==> (userId, bookId) in FavPairs(favorites)
  {
    if (userId, bookId) in FavPairs(favorites) {
      var f :| f in favorites && (f.userId, f.bookId) == (userId, bookId);
    }
  }

  /** Removing the only row of a pair removes exactly that pair. */
  lemma FavPairsRemove(favorites: seq<FavoriteBook>, i: nat)
    requires FavoritesOk(favorites) && i < |favorites|
    ensures FavPairs(RemoveAt(favorites, i)) ==
      FavPairs(favorites) - {(favorites[i].userId, favorites[i].bookId)}
  {
    var r := RemoveAt(favorites, i);
    var p := (favorites[i].userId, favorites[i].bookId);
    forall q | q in FavPairs(favorites) && q != p
      ensures q in FavPairs(r)
    {
      var f :| f in favorites && (f.userId, f.bookId) == q;
      var j :| 0 <= j < |favorites| && favorites[j] == f;
      if j < i {
        assert r[j] == f;
      } else {
        assert r[j - 1] == f;
      }
    }
    forall q | q in FavPairs(r)
      ensures q in FavPairs(favorites) && q != p
    {
      var f :| f in r && (f.userId, f.bookId) == q;
      var j :| 0 <= j < |r| && r[j] == f;
      if j < i {
        assert favorites[j] == f;
      } else {
        assert favorites[j + 1] == f;
      }
    }
  }

  lemma FavPairsAppend(favorites: seq<FavoriteBook>, f: FavoriteBook)
    ensures FavPairs(favorites + [f]) == FavPairs(favorites) + {(f.userId, f.bookId)}
  {
    assert forall g :: g in favorites + [f] <==> g in favorites || g == f;
  }

  /** A toggle keeps every integrity rule of the database. */
  lemma ToggleKeepsValid(t: Tables, caller: Caller, bookId: int, now: Time)
    requires Valid(t)
    ensures Valid(ToggleSpec(t, caller, bookId, now).0)
  {
    if caller.SignedIn? && caller.claimId.Some? {
      var userId := caller.claimId.value;
      var i := FindFavorite(t.favorites, userId, bookId);
      if i.Some? {
        RemoveFavoriteKeepsValid(t, i.value);
      }
    }
  }

  /** After a successful toggle, the pair is a favourite exactly when the answer says so, and it was not one before. */
  lemma ToggleReportsPresence(t: Tables, caller: Caller, bookId: int, now: Time)
    requires Valid(t)
    ensures var (t', res) := ToggleSpec(t, caller, bookId, now);
      res.Toggled? ==>
        CallerId(caller).Some? &&
        res.isFavorited == IsFavorite(t', CallerId(caller).value, bookId) &&
        res.isFavorited == !IsFavorite(t, CallerId(caller).value, bookId)
  {
    if caller.SignedIn? && caller.claimId.Some? {
      var userId := caller.claimId.value;
      var i := FindFavorite(t.favorites, userId, bookId);
      FavPairsSpec(t.favorites, userId, bookId);
      if i.Some? {
        FavPairsRemove(t.favorites, i.value);
      } else {
        FavPairsAppend(t.favorites, FavoriteBook(userId, bookId, Some(now)));
      }
    }
  }

  /** Only the favourites table changes, and in it only the caller's pair for this book. */
  lemma ToggleTouchesOnlyThePair(t: Tables, caller: Caller, bookId: int, now: Time, userId: int, otherBook: int)
    requires Valid(t)
    requires CallerId(caller).None? || (userId, otherBook) != (CallerId(caller).value, bookId)
    ensures var t' := ToggleSpec(t, caller, bookId, now).0;
      t' == t.(favorites := t'.favorites) &&
      (IsFavorite(t', userId, otherBook) <==> IsFavorite(t, userId, otherBook))
  {
    if caller.SignedIn? && caller.claimId.Some? {
      var i := FindFavorite(t.favorites, caller.claimId.value, bookId);
      if i.Some? {
        FavPairsRemove(t.favorites, i.value);
      } else {
        FavPairsAppend(t.favorites, FavoriteBook(caller.claimId.value, bookId, Some(now)));
      }
    }
  }

  /** Two toggles in a row restore the set of favourite pairs; starting without the favourite, they restore the database exactly. */
  lemma ToggleTwiceRestores(t: Tables, caller: Caller, bookId: int, now1: Time, now2: Time)
    requires Valid(t)
    ensures var (t1, res1) := ToggleSpec(t, caller, bookId, now1);
      var (t2, res2) := ToggleSpec(t1, caller, bookId, now2);
      res1.Toggled? ==>
        res2.Toggled? && res2.isFavorited == !res1.isFavorited &&
        FavPairs(t2.favorites) == FavPairs(t.favorites) &&
        (!res1.isFavorited || t2 == t)
  {
    var (t1, res1) := ToggleSpec(t, caller, bookId, now1);
    if res1.Toggled? {
      var userId := caller.claimId.value;
      ToggleKeepsValid(t, caller, bookId, now1);
      ToggleReportsPresence(t, caller, bookId, now1);
      ToggleReportsPresence(t1, caller, bookId, now2);
      var i := FindFavorite(t.favorites, userId, bookId);
      FavPairsSpec(t.favorites, userId, bookId);
      FavPairsSpec(t1.favorites, userId, bookId);
      if i.Some? {
        FavPairsRemove(t.favorites, i.value);
        FavPairsAppend(t1.favorites, FavoriteBook(userId, bookId, Some(now2)));
        assert bookId in BookIds(t.books) && userId in UserIds(t.users) by {
          assert t.favorites[i.value] in t.favorites;
        }
      } else {
        var f := FavoriteBook(userId, bookId, Some(now1));
        var j := FindFavorite(t1.favorites, userId, bookId);
        assert t1.favorites[|t.favorites|] == f;
        assert j == Some(|t.favorites|);
        assert RemoveAt(t1.favorites, |t.favorites|) == t.favorites;
      }
    }
  }
}
