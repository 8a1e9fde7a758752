# SBooks — a verified model of the catalogue core

SBooks is a server-rendered book catalogue (ASP.NET Razor Pages, Entity
Framework Core, PostgreSQL). Readers browse and search books, favourite
them, write one top-level review per book, reply to reviews and like or
dislike them. Administrators manage books, authors, publishers and users
behind dependency-guarded deletes and uniqueness-checked forms.

This project models the part of SBooks that changes or queries the
database, as operations over an in-memory relational store:

- `Entities` — the rows of the ten tables plus the user–role join table,
  the signed-in caller, sort keys, and the 32-bit counter arithmetic.
- `Schema` — the integrity rules the database enforces (primary and
  composite keys, unique indexes including the filtered index on top-level
  reviews, foreign keys) as one predicate `Valid` on the tables, with the
  edit lemmas that keep it.
- `Store` — the `Context` class: one mutable sequence per table, which
  the handlers reassign. `Db()` is the snapshot their contracts speak of.
- `Seqs`, `Text`, `Sorting` — the LINQ and string operations the queries
  use: `Where`, `Count`, `Skip`/`Take`, `Distinct`, a stable
  `OrderBy`/`OrderByDescending` over composite keys, `Trim`, `ToLower`,
  `Contains`.
- `BookDetails`, `ReviewVotes`, `Favorites` — the book detail page:
  view counting, rating aggregation, review upsert, replies, the
  like/dislike state machine with its denormalised counters, and the
  favourite toggle (also served by the favourite API endpoint).
- `BookService` — the catalogue queries behind the home page: filtering,
  counting, sorting and paging books, search suggestions, the author and
  genre lists, the most-favourited books and the search log.
- `AuthorService`, `UserService` — the two remaining services: an
  author's books a page at a time and the author's statistics; a user's
  profile and lists, profile update, password change and favourite removal.
- `Cascade`, `Deletes`, `UserDelete` — the administrator's deletes of
  books, authors, publishers and users, with the database's own
  `ON DELETE` rules (cascading replies and votes, nulled references).
- `AdminLists`, `UsersIndex`, `PublishersIndex`, `AuthorsIndex`,
  `BooksIndex` — the administrator's list pages: search, filters, sort,
  paging and the links that re-sort the book list.
- `CatalogueForms`, `UserForms`, `Registration` — the create and edit
  forms for authors, publishers and users, their availability endpoints,
  and self-service registration.
- `UserPages`, `Breadcrumbs` — the user detail page and role badge, and
  the breadcrumb trail every administration page sets.
- `Grouping`, `Dashboard`, `BooksReport` — in-memory `GroupBy`, the
  administration dashboard's totals and rankings, and the book report's
  statistics and price bands.

Every handler that writes is a pure specification function on `Tables`
together with a method on `Context` whose postcondition ties the new
state and the answer to that function and keeps `Valid`. Read-only
queries (the services' getters, the author and user detail pages) are
plain functions on `Tables`. The list, report and dashboard pages are
classes whose fields the page's `OnGet` fills from a `Tables` snapshot,
as the page models do in the source. The properties the code promises
are lemmas about the specification functions.

Where the code and its description disagree, the model follows the code.
Posting a review with a rating outside 1..5 re-runs the page's GET handler,
so the rejected post still counts one more view of the book
(`BookDetails.InvalidRatingWritesNoReview` states exactly this). The user
delete is modelled as written, leaving the counters of the reviews the
user voted on stale; the corrected delete is proved beside it (see
"## Findings"). The user service's password change compares the typed
current password with the stored column and stores the new password as
typed (SBooks/Services/UserService.cs:196-202), while registration stores
a BCrypt hash and the administrator's forms the hash of ASP.NET's password
hasher; so a user whose password was set through those can pass that
check only by typing the hash itself.
`UserService.ChangePassword` models the comparison exactly as written.

## Model

| member | source | states |
|---|---|---|
| Schema.EmptyTables | SBooks/Data/SbooksContext.cs:151-331 | An empty database satisfies every key, unique index and foreign-key rule of the schema. |
| Store.Context.constructor | SBooks/Data/SbooksContext.cs:151-331 | A new context holds the empty database, which is valid. |
| Store.Context.NewId | SBooks/Data/SbooksContext.cs:277 | An inserted row receives the next identity value and nothing else changes. |
| BookDetails.BumpViewsSpec | SBooks/Pages/Books/Details.cshtml.cs:54 | Viewing a book adds one to its ViewCount, a null count counting as 0; every other row and table is unchanged and the database stays valid. |
| BookDetails.ViewBook | SBooks/Pages/Books/Details.cshtml.cs:35-60 | The GET handler bumps the view count and then returns the page data of the bumped state; an unknown book gives no page. |
| BookDetails.Distribution | SBooks/Pages/Books/Details.cshtml.cs:312-320 | The distribution has five entries, entry k counting the ratings equal to k+1. |
| BookDetails.DistributionSumsToCount | SBooks/Pages/Books/Details.cshtml.cs:312-320 | For ratings in 1..5, the five star counts sum to the number of rated top-level reviews. |
| BookDetails.AverageBounds | SBooks/Pages/Books/Details.cshtml.cs:312-320 | The average rating is 0 with no ratings and lies between 1 and 5 otherwise. |
| BookDetails.SubmitReview | SBooks/Pages/Books/Details.cshtml.cs:62-117 | The review post changes the database and answers exactly as the specification function says, and the database stays valid. |
| BookDetails.SubmitReviewKeepsValid | SBooks/Pages/Books/Details.cshtml.cs:88-112 | Every outcome of a review post keeps the keys, the one-top-level-review-per-user-and-book index and the references valid. |
| BookDetails.InvalidRatingWritesNoReview | SBooks/Pages/Books/Details.cshtml.cs:76-85 | A rating outside 1..5 writes no review and changes nothing but the view count. |
| BookDetails.SubmitReviewLeavesOne | SBooks/Pages/Books/Details.cshtml.cs:88-112 | After a saved review the caller has exactly one top-level review of the book, holding the submitted rating and text. |
| BookDetails.SubmitReviewOverwrites | SBooks/Pages/Books/Details.cshtml.cs:88-99 | An existing top-level review keeps its id, position, creation time and counters; only rating, text and update time change. |
| BookDetails.ReplyReview | SBooks/Pages/Books/Details.cshtml.cs:155-196 | The reply post changes the database and answers exactly as the specification function says, and the database stays valid. |
| BookDetails.ReplyKeepsValid | SBooks/Pages/Books/Details.cshtml.cs:182-193 | Inserting a reply keeps the database valid. |
| BookDetails.ReplyShape | SBooks/Pages/Books/Details.cshtml.cs:157-193 | A sent reply is one appended row under an existing parent, on the parent's book, by the caller, with trimmed non-blank text and no rating; any rejection changes nothing. |
| ReviewVotes.LikeReview | SBooks/Pages/Books/Details.cshtml.cs:198-288 | The vote post changes votes and counters and answers exactly as the specification function says, and the database stays valid. |
| ReviewVotes.VoteKeepsValid | SBooks/Pages/Books/Details.cshtml.cs:220-280 | Every vote outcome keeps the (user, review) vote key, the references and the counter ranges valid. |
| ReviewVotes.VoteTransitions | SBooks/Pages/Books/Details.cshtml.cs:220-278 | For an existing review and user, voting the current choice again withdraws it and any other vote becomes the caller's vote. |
| ReviewVotes.VoteKeepsCounters | SBooks/Pages/Books/Details.cshtml.cs:211-280 | If every review's like and dislike counters equal its +1 and −1 vote rows, they still do after any vote call. |
| ReviewVotes.VoteReportsRowCounts | SBooks/Pages/Books/Details.cshtml.cs:282-287 | The counters the handler answers with are the numbers of like and dislike rows of the review after the vote. |
| ReviewVotes.VoteFrame | SBooks/Pages/Books/Details.cshtml.cs:211-280 | A vote changes only the target review's two counters and the caller's vote row on it. |
| ReviewVotes.VoteTwiceRestores | SBooks/Pages/Books/Details.cshtml.cs:220-278 | Starting with no vote, voting the same way twice restores the database exactly. |
| Favorites.ToggleFavorite | SBooks/Pages/Api/Favorite.cshtml.cs:19-56 | The favourite toggle changes the database and answers exactly as the specification function says, and the database stays valid. |
| Favorites.FavPairsSpec | SBooks/Pages/Api/Favorite.cshtml.cs:32-33 | The lookup by user and book finds a row exactly when the (user, book) pair is a favourite. |
| Favorites.ToggleKeepsValid | SBooks/Pages/Api/Favorite.cshtml.cs:32-55 | Every toggle outcome keeps the (user, book) key and the references valid. |
| Favorites.ToggleReportsPresence | SBooks/Pages/Api/Favorite.cshtml.cs:32-55 | After a toggle the returned flag equals the presence of the pair, which is the opposite of its presence before. |
| Favorites.ToggleTouchesOnlyThePair | SBooks/Pages/Api/Favorite.cshtml.cs:33 | Only the favourites table changes, and in it only the caller's pair for this book. |
| Favorites.ToggleTwiceRestores | SBooks/Pages/Api/Favorite.cshtml.cs:32-55 | Two toggles restore the set of favourite pairs, and starting without the favourite they restore the database exactly. |
| BookService.FilterBooksIsFilter | SBooks/Services/BookService.cs:38-56 | The three `Where` stages select, in catalogue order, exactly what one filter by the conjunction of the switched-on conditions selects. |
| BookService.FilterBooksSpec | SBooks/Services/BookService.cs:38-56 | A book is listed exactly when it is in the catalogue and matches the text, author and genre conditions that are switched on; with no query, authors or genres every book is listed. |
| BookService.ParseBookOrderSpec | SBooks/Services/BookService.cs:62-71 | The sort name is matched case-insensitively, and only "oldest", "title", "rating" and "favorites" select an order other than newest first. |
| BookService.DefaultOrderIsNewest | SBooks/Services/BookService.cs:70 | A missing sort name selects newest first. |
| BookService.PaginateSpec | SBooks/Services/BookService.cs:74-104 | A paged result exists exactly when offset and size are not negative; it echoes page, size and total and holds the projections of at most `pageSize` rows of the requested window, none past the end. |
| BookService.GetBooks | SBooks/Services/BookService.cs:28-105 | The catalogue page is answered exactly when its offset and size are not negative; its total counts the books passing every filter and it holds at most `pageSize` cards. |
| BookService.GetBooksSpec | SBooks/Services/BookService.cs:28-105 | A page exists exactly when the skip and take counts are not negative; its total is the number of matching books, independent of paging; it echoes page and size, holds at most page-size cards, is empty past the end, and its cards are those of the page of sorted matches. |
| BookService.PageBooksSpec | SBooks/Services/BookService.cs:62-76 | The books of a page are sorted by the selected key and every one is a catalogue book matching the filter. |
| BookService.CardSpec | SBooks/Services/BookService.cs:77-95 | A card copies the book's columns; its review count plus the replies is all the book's reviews; IsFavorited holds exactly when a user is given and has favourited the book; it has an author name exactly when the author exists. |
| BookService.SuggestionsSpec | SBooks/Services/BookService.cs:107-133 | A blank query suggests nothing; otherwise at most `limit` matching books, most viewed first. |
| BookService.AuthorsWithBooksSpec | SBooks/Services/BookService.cs:135-141 | The author list is ordered by name and holds exactly the authors that have a book. |
| BookService.GenreNamesSpec | SBooks/Services/BookService.cs:145-147 | The genre names are exactly the non-empty genres of the catalogue. |
| BookService.GenresMembers | SBooks/Services/BookService.cs:143-151 | The genre list holds exactly the non-empty genres of the catalogue. |
| BookService.GenresSpec | SBooks/Services/BookService.cs:148-149 | The genre list names each genre once, in strictly ascending order. |
| BookService.TopFavoriteBooksSpec | SBooks/Services/BookService.cs:166-176 | The most-favourited list holds at most `limit` books, each with at least one favourite, ordered by favourite count and then views, descending. |
| BookService.FavoriteCountPositive | SBooks/Services/BookService.cs:173 | A book has a positive favourite count exactly when some user has favourited it. |
| BookService.TopFavoritesSpec | SBooks/Services/BookService.cs:166-196 | The top cards are those of the most-favourited books, with "Không rõ" for a missing author or publisher and a null view count as 0. |
| BookService.LogSearch | SBooks/Services/BookService.cs:153-164 | Logging a search changes the database as the specification function says and keeps it valid. |
| BookService.LogSearchKeepsValid | SBooks/Services/BookService.cs:153-164 | Appending a search log keeps the database valid. |
| BookService.LogSearchAddsOne | SBooks/Services/BookService.cs:155-163 | A logged search appends exactly one row with the text, the user and the time; an unknown user id writes nothing. |
| BookService.LoadHomeData | SBooks/Pages/Index.cshtml.cs:69-89 | Loading the page data gives the authors with books, the genres and the page of twelve books for the bound filter and the caller, or nothing when the book query fails. |
| BookService.HomeDataSpec | SBooks/Pages/Index.cshtml.cs:77-88 | The page data loads exactly when the current page is at least 1. |
| BookService.HomeGet | SBooks/Pages/Index.cshtml.cs:44-89 | The home page loads the filter lists and a page of twelve books, then logs the search, as the specification function says, keeping the database valid. |
| BookService.HomeWritesOnlyTheLog | SBooks/Pages/Index.cshtml.cs:50-54 | The home page writes only when the query is not blank, and then only the search log. |
| BookService.HomePageSpec | SBooks/Pages/Index.cshtml.cs:44-89 | The page is produced exactly when the current page is at least 1 and the search, if any, could be logged. |
| BookService.HomePageSize12 | SBooks/Pages/Index.cshtml.cs:77-88 | The home page shows at most twelve books, and its total is the number of books matching the bound filter. |
| AuthorService.GetAuthorById | SBooks/Services/AuthorService.cs:28-32 | An author is found exactly when the id is an author's, and the one found is that row. |
| AuthorService.GetBooksByAuthorSpec | SBooks/Services/AuthorService.cs:34-78 | A page is answered exactly when its offset and size are not negative; it echoes page and size, its total counts every book of the author whatever the page, and it holds the cards of at most `pageSize` of the author's books, none past the end. |
| AuthorService.AuthorPageSpec | SBooks/Services/AuthorService.cs:45-68 | The books of a page are the author's, newest first, and every card has the book's id and an author and publisher name ("Không rõ" when missing). |
| AuthorService.AuthorCardNamesAuthor | SBooks/Services/AuthorService.cs:54 | On a consistent database every card of an author's page names that author. |
| AuthorService.GetAllAuthors | SBooks/Services/AuthorService.cs:80-87 | The page of authors is answered exactly when its offset and size are not negative, and holds at most `pageSize` authors. |
| AuthorService.GetAllAuthorsSpec | SBooks/Services/AuthorService.cs:80-87 | A page is answered exactly when its offset and size are not negative, and holds at most `pageSize` authors of the table, ordered by name; from page 1 on it is the run of the authors by name that starts at (page − 1)·pageSize, not empty while that offset is below the number of authors. |
| AuthorService.SumFavorites | SBooks/Services/AuthorService.cs:108 | Summing the favourite counts of distinct books counts the favourite rows of those books. |
| AuthorService.SumTopLevelReviews | SBooks/Services/AuthorService.cs:109 | Summing the top-level review counts of distinct books counts the top-level reviews of those books. |
| AuthorService.BooksOfSpec | SBooks/Services/AuthorService.cs:96-101 | An author's books are exactly the books naming the author, each once. |
| AuthorService.BookIdListSpec | SBooks/Services/AuthorService.cs:108-109 | An id is listed exactly when one of the books has it. |
| AuthorService.AuthorStatsTotals | SBooks/Services/AuthorService.cs:94-109 | An unknown author gets the all-zero record; otherwise TotalBooks counts the author's books, TotalViews sums their views (null as 0), TotalFavorites counts their favourites and TotalReviews their top-level reviews. |
| AuthorService.RealSumBounds | SBooks/Services/AuthorService.cs:110-114 | Values between `lo` and `hi` sum to between `n·lo` and `n·hi`. |
| AuthorService.QuotientAtLeast | SBooks/Services/AuthorService.cs:110-114 | A total of at least `n·lo` averages to at least `lo`. |
| AuthorService.QuotientAtMost | SBooks/Services/AuthorService.cs:110-114 | A total of at most `n·hi` averages to at most `hi`. |
| AuthorService.MeanBounds | SBooks/Services/AuthorService.cs:110-114 | The mean of values between 1 and 5 lies between 1 and 5. |
| AuthorService.BookAveragesBounded | SBooks/Services/AuthorService.cs:111-112 | With every rating from 1 to 5, each rated book's average lies between 1 and 5. |
| AuthorService.AuthorAverageRating | SBooks/Services/AuthorService.cs:110-114 | AverageRating is 0 for an unknown author or one without a rated top-level review, and otherwise, with ratings from 1 to 5, lies between 1 and 5. |
| AuthorService.AuthorTopGenresSpec | SBooks/Services/AuthorService.cs:116-122 | TopGenres lists at most five distinct non-empty genres, largest first, each with the number of the author's books in it; a genre left out means five are listed, none smaller. |
| AuthorService.GroupMember | SBooks/Services/AuthorService.cs:118-119 | A group of positive size has a member with its key. |
| AuthorService.MostPopularSpec | SBooks/Services/AuthorService.cs:132-135 | MostPopularBook is none exactly when the author has no book; otherwise it is one of the books, none of which outranks it on favourites then views, so none has more favourites. |
| AuthorService.PopularKeyFavorites | SBooks/Services/AuthorService.cs:133 | A book with more favourites comes first in the popularity order. |
| UserService.GetUserProfile | SBooks/Services/UserService.cs:32-80 | A profile is returned exactly for a known user id, and it is that user's. |
| UserService.GetUserProfileSpec | SBooks/Services/UserService.cs:32-54 | A profile exists exactly for a known user and shows that user's id, name, email, full name, creation time and active flag. |
| UserService.UserReviewSplit | SBooks/Services/UserService.cs:52-53 | Every review of a user is counted once, as top-level or as a reply. |
| UserService.ProfileReviewsSplit | SBooks/Services/UserService.cs:52-53 | ReviewsCount plus RepliesCount is the number of all the user's reviews. |
| UserService.ProfileAdminStats | SBooks/Services/UserService.cs:57-65 | The three added-book statistics are present exactly when the user administers a book; then they count those books, sum their views (null as 0) and count their favourites. |
| UserService.LastLoginSpec | SBooks/Services/UserService.cs:67-76 | LastLoginTime, when set, is the time of one of the user's LOGIN rows that no other sorts after; a LOGIN row without a time sorts first in PostgreSQL and makes it null. |
| UserService.NullLastIsLargest | SBooks/Services/UserService.cs:70 | A timestamp sorts before a null one in the database's ascending order. |
| UserService.FavoriteRows | SBooks/Services/UserService.cs:83-86 | The join of favourites with their books yields at most one row per favourite, each pairing a favourite with its book. |
| UserService.GetUserFavoriteBooks | SBooks/Services/UserService.cs:81-111 | The page of favourites is answered exactly when its offset and size are not negative, and holds at most `pageSize` cards. |
| UserService.GetUserFavoriteBooksSpec | SBooks/Services/UserService.cs:81-111 | A page is answered exactly when its offset and size are not negative; it holds at most `pageSize` cards, each a book the user favourited, flagged favourite and dated by the favourite row; from page 1 on they are the cards of the run of the user's favourites, most recent first, that starts at (page − 1)·pageSize, not empty while that offset is below their number. |
| UserService.FavoritePageOrder | SBooks/Services/UserService.cs:89 | The favourite page lists the most recently favourited first. |
| UserService.FavoriteRowsComplete | SBooks/Services/UserService.cs:83-86 | When every favourite's book exists, the join drops no favourite. |
| UserService.FavoriteRowsOfComplete | SBooks/Services/UserService.cs:83-89 | On a consistent database the user's favourite list has one row per favourite of the user. |
| UserService.GetUserReviews | SBooks/Services/UserService.cs:113-123 | The page of the user's reviews is answered exactly when its offset and size are not negative, and holds at most `pageSize` reviews. |
| UserService.GetUserReviewsSpec | SBooks/Services/UserService.cs:113-123 | A page of the user's reviews is answered exactly when offset and size are not negative, holds at most `pageSize` of the user's reviews and replies, newest first; from page 1 on it is the run of them that starts at (page − 1)·pageSize, not empty while that offset is below their number. |
| UserService.GetUserSearchHistory | SBooks/Services/UserService.cs:125-133 | The page of the user's searches is answered exactly when its offset and size are not negative, and holds at most `pageSize` searches. |
| UserService.GetUserSearchHistorySpec | SBooks/Services/UserService.cs:125-133 | A page of the user's searches is answered exactly when offset and size are not negative, holds at most `pageSize` of the user's searches, newest first; from page 1 on it is the run of them that starts at (page − 1)·pageSize, not empty while that offset is below their number. |
| UserService.GetUserAddedBooks | SBooks/Services/UserService.cs:135-162 | The page of added books is answered exactly when its offset and size are not negative, and holds at most `pageSize` cards. |
| UserService.GetUserAddedBooksSpec | SBooks/Services/UserService.cs:135-162 | A page of added books is answered exactly when offset and size are not negative, and holds at most `pageSize` cards of books the user administers, newest first, each with its favourite count and no publisher; from page 1 on they are the cards of the run of those books that starts at (page − 1)·pageSize, not empty while that offset is below their number. |
| UserService.UpdateProfile | SBooks/Services/UserService.cs:164-187 | The update changes the database and answers exactly as the specification function says, keeping it valid. |
| UserService.UpdateProfileKeepsValid | SBooks/Services/UserService.cs:164-187 | Every outcome of a profile update keeps the database valid, the unique email index included. |
| UserService.UpdateProfileOutcome | SBooks/Services/UserService.cs:164-187 | The update succeeds exactly when the user exists and no other user has the email; a failure changes nothing, a success only that user's full name and email. |
| UserService.UpdateProfileThenProfile | SBooks/Services/UserService.cs:164-187 | After a successful update the profile shows the new full name and email and otherwise what it showed before. |
| UserService.ChangePassword | SBooks/Services/UserService.cs:189-224 | The change changes the database and answers exactly as the specification function says, keeping it valid. |
| UserService.ChangePasswordKeepsValid | SBooks/Services/UserService.cs:189-224 | Every outcome of a password change keeps the database valid. |
| UserService.ChangePasswordOutcome | SBooks/Services/UserService.cs:189-224 | The change succeeds exactly when the user exists and the stored value equals the current password; a failure changes nothing; a success stores the new password on that user only and appends one CHANGE_PASSWORD row. |
| UserService.ChangePasswordRoundTrip | SBooks/Services/UserService.cs:189-224 | Changing the password and changing it back restores the users table and leaves two activity rows. |
| UserService.RemoveFavoriteBook | SBooks/Services/UserService.cs:226-244 | The removal changes the database and answers exactly as the specification function says, keeping it valid. |
| UserService.RemoveFavoriteOutcome | SBooks/Services/UserService.cs:226-244 | The removal succeeds exactly when the pair is a favourite, and then removes that pair only; a failure changes nothing. |
| UserService.RemoveFavoriteIsToggleOff | SBooks/Services/UserService.cs:226-244 | A successful removal leaves the same database as the favourite toggle on that book, which reports it is no longer a favourite. |
| Cascade.Prune | SBooks/Data/SbooksContext.cs:227-230 | Every review left by the cascade was in the table before. |
| Cascade.PruneClosed | SBooks/Data/SbooksContext.cs:227-230 | After the cascade on `parent_review_id` every remaining reply's parent review exists. |
| Cascade.PruneGreatest | SBooks/Data/SbooksContext.cs:227-230 | The cascade removes only what it must: every set of reviews whose parents are all present survives it. |
| Cascade.PruneClosedIsIdentity | SBooks/Data/SbooksContext.cs:227-230 | A table where every reply's parent exists is left as it is. |
| Cascade.PrunePairwise | SBooks/Data/SbooksContext.cs:227-230 | Any relation between earlier and later rows (such as distinct keys) still holds after the cascade. |
| Deletes.ClearAuthor | SBooks/Data/SbooksContext.cs:138-141 | `ON DELETE SET NULL` keeps every book in place and leaves none naming the deleted author. |
| Deletes.ClearPublisher | SBooks/Data/SbooksContext.cs:143-146 | `ON DELETE SET NULL` keeps every book in place and leaves none naming the deleted publisher. |
| Deletes.ClearAdmin | SBooks/Data/SbooksContext.cs:133-136 | `ON DELETE SET NULL` keeps every book in place and leaves none naming the deleted admin user. |
| Deletes.ClearAuthorUnused | SBooks/Data/SbooksContext.cs:138-141 | Clearing the author reference changes the books exactly when some book names that author. |
| Deletes.ClearPublisherUnused | SBooks/Data/SbooksContext.cs:143-146 | Clearing the publisher reference changes the books exactly when some book names that publisher. |
| Deletes.ClearAdminUnused | SBooks/Data/SbooksContext.cs:133-136 | Clearing the admin reference changes the books exactly when some book names that user. |
| Deletes.BookIssuesSpec | SBooks/Pages/Admin/Books/Delete.cshtml.cs:73-79 | The error lists reviews when there are any and favourites when there are any, each once with its count, and is empty exactly when there are neither. |
| Deletes.RemoveBookKeepsValid | SBooks/Pages/Admin/Books/Delete.cshtml.cs:91-92 | Removing a book no review or favourite refers to keeps the database valid and drops exactly its id. |
| Deletes.DeleteBook | SBooks/Pages/Admin/Books/Delete.cshtml.cs:41-94 | The delete post changes the database and answers exactly as the specification function says, keeping it valid. |
| Deletes.DeleteBookOutcome | SBooks/Pages/Admin/Books/Delete.cshtml.cs:41-94 | A missing id or book is not found and a book with a review or favourite is blocked, both changing nothing; otherwise only that book leaves the books table. |
| Deletes.AuthorDeleteInfoSpec | SBooks/Pages/Admin/Authors/Delete.cshtml.cs:39-40 | The page counts the author's books and shows the five newest of them (fewer if there are fewer), each a book of that author. |
| Deletes.RemoveAuthorKeepsValid | SBooks/Pages/Admin/Authors/Delete.cshtml.cs:79-80 | Removing an author no book names keeps the database valid. |
| Deletes.DeleteAuthor | SBooks/Pages/Admin/Authors/Delete.cshtml.cs:45-83 | The delete post changes the database and answers exactly as the specification function says, keeping it valid. |
| Deletes.DeleteAuthorOutcome | SBooks/Pages/Admin/Authors/Delete.cshtml.cs:45-83 | A missing id or author is not found; an author with books is blocked with the page's book count and list and nothing changes; otherwise only that author leaves the authors table. |
| Deletes.PublisherDeletePageSpec | SBooks/Pages/Admin/Publishers/Delete.cshtml.cs:21-46 | The page exists exactly for an existing publisher; it flags dependencies exactly when some book names the publisher and samples the first five of its books. |
| Deletes.RemovePublisherKeepsValid | SBooks/Pages/Admin/Publishers/Delete.cshtml.cs:74-75 | Removing a publisher no book names keeps the database valid. |
| Deletes.DeletePublisher | SBooks/Pages/Admin/Publishers/Delete.cshtml.cs:48-78 | The delete post changes the database and answers exactly as the specification function says, keeping it valid. |
| Deletes.DeletePublisherOutcome | SBooks/Pages/Admin/Publishers/Delete.cshtml.cs:48-78 | A missing id or publisher is not found and a publisher with books is blocked, both changing nothing; otherwise only that publisher leaves its table. |
| UserDelete.UserDeletePageSpec | SBooks/Pages/Admin/Users/Delete.cshtml.cs:23-53 | The page exists exactly for an existing user and flags dependencies exactly when the user holds a book, review, favourite or activity log. |
| UserDelete.ForgetSearcher | SBooks/Data/SbooksContext.cs:288-291 | `ON DELETE SET NULL` keeps every search log and leaves none naming the deleted user. |
| UserDelete.WithdrawAll | SBooks/Pages/Admin/Users/Delete.cshtml.cs:85-94 | Each review, in place, is the same review with the user's vote on it taken back from its counters. |
| UserDelete.RemoveUserOk | SBooks/Pages/Admin/Users/Delete.cshtml.cs:93 | Removing a user keeps the users' keys and unique names and drops exactly that id. |
| UserDelete.SurvivingReviewsOk | SBooks/Pages/Admin/Users/Delete.cshtml.cs:85 | Removing the user's reviews and the replies below them keeps the review keys, the one-top-level-review index and the references valid, and leaves no review of that user. |
| UserDelete.SurvivingVotesOk | SBooks/Data/SbooksContext.cs:252-258 | The votes that survive the cascades keep their key and refer only to surviving reviews and users. |
| UserDelete.OtherFavoritesOk | SBooks/Pages/Admin/Users/Delete.cshtml.cs:86 | Removing the user's favourites keeps the favourites' key and references valid. |
| UserDelete.OtherActivityLogsOk | SBooks/Pages/Admin/Users/Delete.cshtml.cs:87 | Removing the user's activity logs keeps their keys and references valid. |
| UserDelete.ForgetSearcherOk | SBooks/Data/SbooksContext.cs:288-291 | Nulling the user on search logs keeps their keys valid and their references among the remaining users. |
| UserDelete.RemoveUserRowsKeepsValid | SBooks/Pages/Admin/Users/Delete.cshtml.cs:84-94 | Deleting a user who administers no book, with every row hanging from the user, keeps the database valid. |
| UserDelete.WithdrawAllKeys | SBooks/Pages/Admin/Users/Delete.cshtml.cs:85-94 | Taking votes back changes no review's id, book, author or parent. |
| UserDelete.WithdrawAllCounters | SBooks/Pages/Admin/Users/Delete.cshtml.cs:85-94 | Taking votes back keeps every counter in the 32-bit range. |
| UserDelete.WithdrawAllRefs | SBooks/Pages/Admin/Users/Delete.cshtml.cs:85-94 | Taking votes back keeps every review's references and keys below the identity counter. |
| UserDelete.WithdrawAllOk | SBooks/Pages/Admin/Users/Delete.cshtml.cs:85-94 | Taking votes back keeps the reviews table valid with the same ids. |
| UserDelete.DeleteUserAsWritten | SBooks/Pages/Admin/Users/Delete.cshtml.cs:55-104 | As written, a delete that does not go ahead changes nothing, and one that does needs an existing user id and removes exactly one user row. |
| UserDelete.DeleteUserSpec | SBooks/Pages/Admin/Users/Delete.cshtml.cs:55-104 | Corrected, a delete that does not go ahead changes nothing, and one that does needs an existing user id and removes exactly one user row. |
| UserDelete.DeleteUserKeepsValid | SBooks/Pages/Admin/Users/Delete.cshtml.cs:55-104 | Both the delete as written and the corrected delete keep the database valid. |
| UserDelete.DeletedTablesShape | SBooks/Pages/Admin/Users/Delete.cshtml.cs:84-94 | After the delete each table is its old content with the user's rows, the replies under them and the votes on them removed, the admin and searcher references nulled and the user's votes withdrawn. |
| UserDelete.DeleteUserSpecDeletes | SBooks/Pages/Admin/Users/Delete.cshtml.cs:78-94 | An existing user who administers no book is deleted. |
| UserDelete.DeleteUserAsWrittenDeletes | SBooks/Pages/Admin/Users/Delete.cshtml.cs:78-94 | As written, an existing user who administers no book is deleted by removing the user's rows and what cascades from them. |
| UserDelete.DeleteUser | SBooks/Pages/Admin/Users/Delete.cshtml.cs:55-104 | The delete post changes the database and answers exactly as the code is written (no counter is adjusted), keeping it valid. |
| UserDelete.DeletedReviewsForget | SBooks/Pages/Admin/Users/Delete.cshtml.cs:85 | No review of the deleted user is left. |
| UserDelete.WithdrawAllAuthors | SBooks/Pages/Admin/Users/Delete.cshtml.cs:85-94 | Taking votes back makes no review the deleted user's. |
| UserDelete.DeletedForgets | SBooks/Pages/Admin/Users/Delete.cshtml.cs:84-94 | After the delete no row names the user and the user ids are the old ones less that one. |
| UserDelete.DeletedKeepsOthers | SBooks/Pages/Admin/Users/Delete.cshtml.cs:84-94 | Books, authors, publishers and roles stay; so do the other users' favourites, activity logs and top-level reviews. |
| UserDelete.RemovedForgets | SBooks/Pages/Admin/Users/Delete.cshtml.cs:84-94 | As written too, after the delete no row names the user and the user ids are the old ones less that one. |
| UserDelete.DeleteUserAsWrittenOutcome | SBooks/Pages/Admin/Users/Delete.cshtml.cs:55-104 | As written: a missing id or user is not found and a user with a book is blocked, both changing nothing; otherwise the user and all that names the user are gone, books and roles unchanged. |
| UserDelete.DeleteUserOutcome | SBooks/Pages/Admin/Users/Delete.cshtml.cs:55-104 | A missing id or user is not found and a user with a book is blocked, both changing nothing; otherwise the user and all that names the user are gone, books and roles unchanged. |
| UserDelete.UserVoteCount | SBooks/Pages/Admin/Users/Delete.cshtml.cs:85-94 | With one vote per user and review, the user has at most one vote of a kind on a review, and counts it exactly when it exists. |
| UserDelete.SurvivingVotesCount | SBooks/Data/SbooksContext.cs:256-258 | Of a surviving review's votes of one kind, exactly the deleted user's vote, if any, is gone. |
| UserDelete.VoterVotesGone | SBooks/Data/SbooksContext.cs:256-258 | Votes all cast by the deleted user leave nothing behind. |
| UserDelete.WithdrawMatches | SBooks/Pages/Admin/Users/Delete.cshtml.cs:85-94 | A review whose counters matched its vote rows still matches once the user's vote is taken back and the user's vote rows are gone. |
| UserDelete.WithdrawAllFollows | SBooks/Pages/Admin/Users/Delete.cshtml.cs:85-94 | Counters that followed the votes follow the surviving votes once the user's votes are withdrawn. |
| UserDelete.DeletedKeepsCounters | SBooks/Pages/Admin/Users/Delete.cshtml.cs:85-94 | Counters that matched before the delete match after it. |
| UserDelete.DeleteUserKeepsCounters | SBooks/Pages/Admin/Users/Delete.cshtml.cs:55-104 | The corrected delete leaves every review's like and dislike counters equal to its like and dislike rows, when they were before. |
| UserDelete.StaleCountersExampleRowsOk | SBooks/Pages/Admin/Users/Delete.cshtml.cs:85-94 | The counterexample's tables keep their own key rules. |
| UserDelete.StaleCountersExampleRefsOk | SBooks/Pages/Admin/Users/Delete.cshtml.cs:85-94 | The counterexample's foreign keys resolve. |
| UserDelete.StaleCountersExampleFresh | SBooks/Pages/Admin/Users/Delete.cshtml.cs:85-94 | The counterexample's keys lie below its identity counter. |
| UserDelete.StaleCountersExampleCounters | SBooks/Pages/Admin/Users/Delete.cshtml.cs:85-94 | The counterexample's counters agree with its vote rows. |
| UserDelete.StaleCountersExampleValid | SBooks/Pages/Admin/Users/Delete.cshtml.cs:85-94 | The counterexample is a valid database whose counters agree with its votes. |
| UserDelete.ExampleReviewSurvives | SBooks/Pages/Admin/Users/Delete.cshtml.cs:85 | Deleting user 2 keeps user 1's review in the counterexample. |
| UserDelete.ExampleFindsUser2 | SBooks/Pages/Admin/Users/Delete.cshtml.cs:62-82 | User 2 exists in the counterexample and administers no book, so the delete goes ahead. |
| UserDelete.AsWrittenExampleStale | SBooks/Pages/Admin/Users/Delete.cshtml.cs:85-94 | As written, deleting user 2 leaves review 4 counting a like that no vote row backs. |
| UserDelete.CorrectedExampleMatches | SBooks/Pages/Admin/Users/Delete.cshtml.cs:85-94 | The corrected delete of user 2 leaves the counters matching the votes. |
| UserDelete.DeleteUserAsWrittenLeavesStaleCounters | SBooks/Pages/Admin/Users/Delete.cshtml.cs:85-94 | On a valid database with matching counters, the delete as written leaves stale counters while the corrected one does not. |
| AdminLists.ClampPage | SBooks/Pages/Admin/Users/Index.cshtml.cs:91-92 | The clamped page is at least 1 and, when there are pages, at most the page count; a page already in range is kept and a page below 1 becomes 1. |
| AdminLists.ClampedPageShows | SBooks/Pages/Admin/Users/Index.cshtml.cs:89-97 | A clamped page holds at most a page size of rows, and at least one whenever there is a row at all. |
| UsersIndex.MatchingUsersSpec | SBooks/Pages/Admin/Users/Index.cshtml.cs:53-82 | A user is listed exactly when it is in the table, matches the lowered search term in username, email or full name when a term is given, and has the selected status; an unknown status filters nothing. |
| UsersIndex.ParseStatusSpec | SBooks/Pages/Admin/Users/Index.cshtml.cs:63-80 | Each status name is matched case-insensitively, and a missing or blank status selects every user. |
| UsersIndex.FilterUsers | SBooks/Pages/Admin/Users/Index.cshtml.cs:53-82 | The two `Where` stages applied in turn select exactly the matching users, in table order. |
| UsersIndex.ParseUserOrderSpec | SBooks/Pages/Admin/Users/Index.cshtml.cs:100-126 | Sort names are matched case-insensitively and any other name sorts by username. |
| UsersIndex.UsersIndexPage.constructor | SBooks/Pages/Admin/Users/Index.cshtml.cs:20-34 | A bound page holds the query parameters and nothing loaded. |
| UsersIndex.UsersIndexPage.LoadUsers | SBooks/Pages/Admin/Users/Index.cshtml.cs:41-98 | Loading keeps the query parameters, sets the total and filtered counts and the page count `ceil(filtered / 15)`, clamps the page number and lists that page of the sorted matches. |
| UsersIndex.UsersIndexPage.Show | SBooks/Pages/Admin/Users/Index.cshtml.cs:87-97 | The rendered properties take the given values and the query parameters stay. |
| UsersIndex.ListedSpec | SBooks/Pages/Admin/Users/Index.cshtml.cs:84-97 | The listed page holds at most fifteen users, each a matching one, in the selected order, and is never empty while some user matches. |
| PublishersIndex.MatchingPublishersSpec | SBooks/Pages/Admin/Publishers/Index.cshtml.cs:45-57 | A publisher is listed exactly when it is in the table and the lowered term occurs in its lowered name, address or website; without a term all are listed. |
| PublishersIndex.SearchIgnoresCase | SBooks/Pages/Admin/Publishers/Index.cshtml.cs:50-54 | A search for "ABC" matches a publisher named "xabcx". |
| PublishersIndex.MissingAddressFirst | SBooks/Pages/Admin/Publishers/Index.cshtml.cs:81 | Sorting by address ascending puts a missing address before every non-empty one. |
| PublishersIndex.PublishersIndexPage.constructor | SBooks/Pages/Admin/Publishers/Index.cshtml.cs:19-31 | A bound page holds the query parameters and nothing loaded. |
| PublishersIndex.PublishersIndexPage.LoadPublishers | SBooks/Pages/Admin/Publishers/Index.cshtml.cs:38-73 | Loading keeps the query parameters, sets the counts and the page count `ceil(filtered / 12)`, clamps the page number and lists that page of the sorted matches. |
| PublishersIndex.PublishersIndexPage.Show | SBooks/Pages/Admin/Publishers/Index.cshtml.cs:62-72 | The rendered properties take the given values and the query parameters stay. |
| PublishersIndex.ListedSpec | SBooks/Pages/Admin/Publishers/Index.cshtml.cs:59-72 | The listed page holds at most twelve publishers, each a matching one, in the selected order, and is never empty while some publisher matches. |
| AuthorsIndex.MatchingAuthorsSpec | SBooks/Pages/Admin/Authors/Index.cshtml.cs:49-62 | An author is listed exactly when it is in the table and its name, and its non-null email, contain the name and email searches that are given. |
| AuthorsIndex.SearchIsCaseSensitive | SBooks/Pages/Admin/Authors/Index.cshtml.cs:52 | The name search is ordinal: "ann" does not find "Ann". |
| AuthorsIndex.AuthorSortSpec | SBooks/Pages/Admin/Authors/Index.cshtml.cs:65-72 | The sort is descending exactly when the direction is "desc" as written and the lowered column is a known one; no column, or an unknown one, sorts by name ascending; "DESC" never reverses. |
| AuthorsIndex.AuthorsIndexPage.constructor | SBooks/Pages/Admin/Authors/Index.cshtml.cs:16-36 | A bound page holds the query parameters and nothing loaded. |
| AuthorsIndex.AuthorsIndexPage.LoadAuthors | SBooks/Pages/Admin/Authors/Index.cshtml.cs:43-77 | Loading sets the total and filtered counts and keeps the parameters; the page query succeeds exactly when the page number is at least 1 and then lists that page of the sorted matches, the old list staying otherwise. |
| AuthorsIndex.AuthorsIndexPage.Show | SBooks/Pages/Admin/Authors/Index.cshtml.cs:61-76 | The rendered properties take the given values and the query parameters stay. |
| AuthorsIndex.AuthorsPageSpec | SBooks/Pages/Admin/Authors/Index.cshtml.cs:32-76 | A page holds at most twelve matching authors in the selected order; it is non-empty up to the last page and, since the number is not clamped, empty past it. |
| BooksIndex.MatchingBooksSpec | SBooks/Pages/Admin/Books/Index.cshtml.cs:136-191 | A book is listed exactly when it is in the table and passes every filter that is set. |
| BooksIndex.NoFiltersListAll | SBooks/Pages/Admin/Books/Index.cshtml.cs:136-191 | With no filter set every book is listed, in table order. |
| BooksIndex.StagedMatches | SBooks/Pages/Admin/Books/Index.cshtml.cs:136-191 | Applying each `Where` stage only when its filter is set keeps exactly the books that pass every set filter. |
| BooksIndex.Narrow | SBooks/Pages/Admin/Books/Index.cshtml.cs:136-191 | One conditional `Where` turns the table filtered by the stages so far into the table filtered by those stages and this one. |
| BooksIndex.ApplyFilters | SBooks/Pages/Admin/Books/Index.cshtml.cs:127-191 | The query narrowed one `Where` at a time is the table filtered once by every set filter, in table order. |
| BooksIndex.BookSortSpec | SBooks/Pages/Admin/Books/Index.cshtml.cs:198-209 | The sort is descending exactly when the direction is not "asc" as written or the column is unknown, and an unknown column sorts by creation time. |
| BooksIndex.DefaultSortNewestFirst | SBooks/Pages/Admin/Books/Index.cshtml.cs:198-209 | The bound defaults ("CreatedAt", "desc") list the newest books first. |
| BooksIndex.DirectionIsCaseSensitive | SBooks/Pages/Admin/Books/Index.cshtml.cs:198-209 | The column name is matched case-insensitively but the direction is not: "ASC" sorts descending. |
| BooksIndex.BooksIndexPage.constructor | SBooks/Pages/Admin/Books/Index.cshtml.cs:22-80 | A bound page holds the filters and query parameters and nothing loaded. |
| BooksIndex.BooksIndexPage.LoadBooks | SBooks/Pages/Admin/Books/Index.cshtml.cs:127-214 | Loading sets the total and filtered counts and keeps the parameters; the page query succeeds exactly when the page number is at least 1 and then lists that page of the sorted matches, the old list staying otherwise. |
| BooksIndex.BooksIndexPage.Show | SBooks/Pages/Admin/Books/Index.cshtml.cs:194-213 | The rendered properties take the given values and the filters stay. |
| BooksIndex.BooksIndexPage.GetSortUrl | SBooks/Pages/Admin/Books/Index.cshtml.cs:305-357 | The header link is the query string of every set filter, then the column, the new direction and page 1, in the source's order. |
| BooksIndex.BooksPageSpec | SBooks/Pages/Admin/Books/Index.cshtml.cs:127-214 | A page holds at most ten books, each in the table and passing every set filter, in the selected order; non-empty up to the last page and, since the number is not clamped, empty past it. |
| BooksIndex.GenreParams | SBooks/Pages/Admin/Books/Index.cshtml.cs:322-326 | One escaped `SelectedGenres` parameter per selected genre, in order. |
| BooksIndex.SortLinkToggles | SBooks/Pages/Admin/Books/Index.cshtml.cs:347-351 | Following a header link sorts by its column, descending exactly when the list was sorted ascending by that same column. |
| BooksIndex.ParamAmpFree | SBooks/Pages/Admin/Books/Index.cshtml.cs:305-357 | A parameter built from ampersand-free parts holds no ampersand. |
| BooksIndex.IntTextAmpFree | SBooks/Pages/Admin/Books/Index.cshtml.cs:317-332 | The decimal text of a number holds no ampersand. |
| BooksIndex.DateTextAmpFree | SBooks/Pages/Admin/Books/Index.cshtml.cs:341-344 | A `yyyy-MM-dd` date holds no ampersand. |
| BooksIndex.SearchParamsAmpFree | SBooks/Pages/Admin/Books/Index.cshtml.cs:309-321 | With ampersand-free escaping, the search, author and publisher parameters hold no ampersand. |
| BooksIndex.GenreParamsAmpFree | SBooks/Pages/Admin/Books/Index.cshtml.cs:322-326 | With ampersand-free escaping, the genre parameters hold no ampersand. |
| BooksIndex.YearParamsAmpFree | SBooks/Pages/Admin/Books/Index.cshtml.cs:328-333 | The year parameters hold no ampersand. |
| BooksIndex.PriceParamsAmpFree | SBooks/Pages/Admin/Books/Index.cshtml.cs:334-339 | With ampersand-free price text, the price parameters hold no ampersand. |
| BooksIndex.DateParamsAmpFree | SBooks/Pages/Admin/Books/Index.cshtml.cs:340-345 | The creation date parameters hold no ampersand. |
| BooksIndex.SortUrlRoundTrip | SBooks/Pages/Admin/Books/Index.cshtml.cs:305-357 | When escaping and price text produce no ampersand, the link starts with "?" and splits at "&" back into exactly its parameters, the last three being the column, the new direction and page 1. |
| BooksIndex.AddSearchParams | SBooks/Pages/Admin/Books/Index.cshtml.cs:309-321 | Appends the search, author and publisher parameters that are set. |
| BooksIndex.AddGenreParams | SBooks/Pages/Admin/Books/Index.cshtml.cs:322-326 | The loop appends one escaped parameter per selected genre, in order. |
| BooksIndex.AddYearParams | SBooks/Pages/Admin/Books/Index.cshtml.cs:328-333 | Appends the year bounds that are set. |
| BooksIndex.AddPriceParams | SBooks/Pages/Admin/Books/Index.cshtml.cs:334-339 | Appends the price bounds that are set. |
| BooksIndex.AddDateParams | SBooks/Pages/Admin/Books/Index.cshtml.cs:340-345 | Appends the creation dates that are set. |
| CatalogueForms.NullIfBlank | SBooks/Pages/Admin/Authors/Create.cshtml.cs:69-72 | A blank or white-space text becomes null, and any other text is kept as typed. |
| CatalogueForms.CreateAuthor | SBooks/Pages/Admin/Authors/Create.cshtml.cs:43-86 | The create post changes the database and answers exactly as the specification function says, keeping it valid. |
| CatalogueForms.EditAuthor | SBooks/Pages/Admin/Authors/Edit.cshtml.cs:66-111 | The edit post changes the database and answers exactly as the specification function says, keeping it valid. |
| CatalogueForms.InsertAuthorKeepsValid | SBooks/Data/SbooksContext.cs:72 | Appending an author under the next id, with an email no author has, keeps the database and the unique email index valid. |
| CatalogueForms.ReplaceAuthorKeepsValid | SBooks/Data/SbooksContext.cs:72 | Overwriting an author's columns under the same id, with an email no other author has, keeps the database valid. |
| CatalogueForms.CreateAuthorKeepsValid | SBooks/Pages/Admin/Authors/Create.cshtml.cs:43-86 | Every outcome of the create post keeps the database valid. |
| CatalogueForms.EditAuthorKeepsValid | SBooks/Pages/Admin/Authors/Edit.cshtml.cs:66-111 | Every outcome of the edit post keeps the database valid. |
| CatalogueForms.CreateAuthorOutcome | SBooks/Pages/Admin/Authors/Create.cshtml.cs:43-86 | The post is refused exactly when the input is invalid, or a typed email is some author's; a refusal changes nothing; a save appends one author under a new id with the typed name and date and a blank email as null, and changes no other table. |
| CatalogueForms.EditAuthorOutcome | SBooks/Pages/Admin/Authors/Edit.cshtml.cs:66-111 | The post is refused exactly when the input is invalid, the author is unknown, or a typed email is another author's; a refusal changes nothing; a save rewrites that author's columns and nothing else. |
| CatalogueForms.AuthorEmailHeldIff | SBooks/Pages/Admin/Authors/Edit.cshtml.cs:82-91 | The email test finds exactly the other authors holding the email. |
| CatalogueForms.OverwriteAuthor | SBooks/Pages/Admin/Authors/Edit.cshtml.cs:75-99 | Overwriting the row found by key replaces that author and no other. |
| CatalogueForms.CreatePublisher | SBooks/Pages/Admin/Publishers/Create.cshtml.cs:37-71 | The create post changes the database and answers exactly as the specification function says, keeping it valid. |
| CatalogueForms.EditPublisher | SBooks/Pages/Admin/Publishers/Edit.cshtml.cs:64-111 | The edit post changes the database and answers exactly as the specification function says, keeping it valid. |
| CatalogueForms.CreatePublisherKeepsValid | SBooks/Pages/Admin/Publishers/Create.cshtml.cs:37-71 | Every outcome of the create post keeps the database valid. |
| CatalogueForms.EditPublisherKeepsValid | SBooks/Pages/Admin/Publishers/Edit.cshtml.cs:64-111 | Every outcome of the edit post keeps the database valid. |
| CatalogueForms.CheckName | SBooks/Pages/Admin/Publishers/Create.cshtml.cs:73-82 | A name is reported available exactly when it is missing or empty or no publisher has it. |
| CatalogueForms.CheckNameExcept | SBooks/Pages/Admin/Publishers/Edit.cshtml.cs:113-122 | A name is reported available exactly when it is missing or empty or no publisher other than the edited one has it. |
| CatalogueForms.CreatePublisherAgreesWithCheck | SBooks/Pages/Admin/Publishers/Create.cshtml.cs:45-82 | For a valid non-empty name the create post refuses it exactly when the endpoint reports it taken, and after a save the endpoint reports it taken. |
| CatalogueForms.EditPublisherAgreesWithCheck | SBooks/Pages/Admin/Publishers/Edit.cshtml.cs:83-122 | For a valid non-empty name of an existing publisher the edit post refuses it exactly when the edit endpoint reports it taken, and after a save the create endpoint reports it taken. |
| CatalogueForms.PublisherFormsKeepNamesDistinct | SBooks/Pages/Admin/Publishers/Create.cshtml.cs:45-61 | Both publisher forms keep publisher names pairwise different. |
| CatalogueForms.CreatePublisherOutcome | SBooks/Pages/Admin/Publishers/Create.cshtml.cs:37-71 | The post is refused exactly when the input is invalid or some publisher has the name; a refusal changes nothing; a save appends the typed publisher under a new id and touches no other table. |
| CatalogueForms.EditPublisherOutcome | SBooks/Pages/Admin/Publishers/Edit.cshtml.cs:64-111 | The post is refused exactly when the input is invalid, the publisher is unknown, or another publisher has the name; a refusal changes nothing; a save rewrites that publisher's columns and nothing else. |
| CatalogueForms.NameHeldIff | SBooks/Pages/Admin/Publishers/Edit.cshtml.cs:83 | The name test finds exactly the other publishers holding the name. |
| CatalogueForms.OverwritePublisher | SBooks/Pages/Admin/Publishers/Edit.cshtml.cs:74-98 | Overwriting the row found by key replaces that publisher and no other. |
| UserForms.SelectedRoleLinks | SBooks/Pages/Admin/Users/Create.cshtml.cs:101-108 | The links written are exactly one per selected id that names an existing role, all for the given user. |
| UserForms.LinksOfOthers | SBooks/Pages/Admin/Users/Edit.cshtml.cs:138 | `Roles.Clear()` keeps exactly the links of the other users. |
| UserForms.CheckUsername | SBooks/Pages/Admin/Users/Create.cshtml.cs:121-130 | A username is reported available exactly when it is missing or empty or no user has it. |
| UserForms.CheckEmail | SBooks/Pages/Admin/Users/Create.cshtml.cs:132-141 | An email is reported available exactly when it is missing or empty or no user has it. |
| UserForms.CheckUsernameExcept | SBooks/Pages/Admin/Users/Edit.cshtml.cs:164-173 | A username is reported available exactly when it is missing or empty or no user other than the edited one has it. |
| UserForms.CheckEmailExcept | SBooks/Pages/Admin/Users/Edit.cshtml.cs:175-184 | An email is reported available exactly when it is missing or empty or no user other than the edited one has it. |
| UserForms.CreateUser | SBooks/Pages/Admin/Users/Create.cshtml.cs:60-119 | The create post changes the database and answers exactly as the specification function says, keeping it valid. |
| UserForms.InsertUserKeepsValid | SBooks/Data/SbooksContext.cs:300-304 | Appending a user under the next id, with a username and email no user has and links to existing roles, keeps the database valid. |
| UserForms.CreateUserKeepsValid | SBooks/Pages/Admin/Users/Create.cshtml.cs:60-119 | Every outcome of the create post keeps the database valid. |
| UserForms.FreshUserHasNoRoles | SBooks/Pages/Admin/Users/Create.cshtml.cs:97-108 | A user id not yet handed out has no role links. |
| UserForms.CreateUserOutcome | SBooks/Pages/Admin/Users/Create.cshtml.cs:60-119 | The post is refused exactly when the input is invalid, a user has the username, or else a user has the email; a refusal changes nothing; a save appends the user as typed with the hash and the current time, linked to exactly the selected roles that exist, and changes nothing else. |
| UserForms.UsernameHeldIff | SBooks/Pages/Admin/Users/Create.cshtml.cs:70 | The username test finds exactly the users holding the name. |
| UserForms.EmailHeldIff | SBooks/Pages/Admin/Users/Create.cshtml.cs:77 | The email test finds exactly the users holding the email. |
| UserForms.CreateUserAgreesWithChecks | SBooks/Pages/Admin/Users/Create.cshtml.cs:70-141 | For a valid post with a non-empty username and email, the create form refuses each exactly when its endpoint reports it taken, in the form's order; after a save both endpoints report them taken. |
| UserForms.EditUser | SBooks/Pages/Admin/Users/Edit.cshtml.cs:86-162 | The edit post changes the database and answers exactly as the specification function says, keeping it valid. |
| UserForms.EditUserKeepsValid | SBooks/Pages/Admin/Users/Edit.cshtml.cs:86-162 | Every outcome of the edit post keeps the database valid. |
| UserForms.EditUserOutcome | SBooks/Pages/Admin/Users/Edit.cshtml.cs:86-162 | The post is refused exactly when the input is invalid, the user is unknown, another user has the username, or else another user has the email; a refusal changes nothing; a save rewrites only that user's fields, the hash exactly when a new password was typed, and makes the user's roles exactly the selected existing ones. |
| UserForms.UsernameHeldByOtherIff | SBooks/Pages/Admin/Users/Edit.cshtml.cs:108 | The username test finds exactly the other users holding the name. |
| UserForms.EmailHeldByOtherIff | SBooks/Pages/Admin/Users/Edit.cshtml.cs:116 | The email test finds exactly the other users holding the email. |
| UserForms.EditUserAgreesWithChecks | SBooks/Pages/Admin/Users/Edit.cshtml.cs:108-184 | For a valid post for an existing user with a non-empty username and email, the edit form refuses each exactly when the edit endpoints report it taken; after a save the create endpoints report both taken. |
| Registration.RegisterPage.constructor | SBooks/Pages/Auth/Register.cshtml.cs:21-25 | A bound page holds the posted form and no message. |
| Registration.RegisterPage.OnPost | SBooks/Pages/Auth/Register.cshtml.cs:56-120 | The post changes the database as the specification function says; an invalid form is shown untouched, a refusal sets the matching error, and a registration sets the success message and clears the form. |
| Registration.Register | SBooks/Pages/Auth/Register.cshtml.cs:60-104 | The database side of the post changes the database and answers exactly as the specification function says, keeping it valid. |
| Registration.RegisterKeepsValid | SBooks/Pages/Auth/Register.cshtml.cs:60-104 | Every outcome of a registration keeps the database valid. |
| Registration.RegisterOutcomeSpec | SBooks/Pages/Auth/Register.cshtml.cs:56-120 | A registration is refused exactly when the form is invalid, an account has the username ignoring case, or else an account has the email ignoring case; a refusal changes nothing; otherwise one active account is appended with the full name, hash and time, whose roles are exactly the role named "User" if it exists. |
| Registration.CaseBlindHeldIff | SBooks/Pages/Auth/Register.cshtml.cs:63-74 | The two lookups find exactly the accounts whose lowered username or email equals the lowered input. |
| Registration.DefaultRoleIdsAtMostOne | SBooks/Pages/Auth/Register.cshtml.cs:97-103 | Role names being unique, at most one role is named "User". |
| Registration.RegisteredNamesWereAvailable | SBooks/Pages/Auth/Register.cshtml.cs:63-80 | A registration succeeds only for a username and email that the admin create form's endpoints report free. |
| Registration.RegisterIgnoresCase | SBooks/Pages/Auth/Register.cshtml.cs:63-70 | "Alice" on file refuses a registration as "aLICE". |
| UserPages.LabelOf | SBooks/Pages/Admin/Users/Details.cshtml.cs:52-59 | The label is Administrator exactly when the user has the Admin role, RegularUser exactly when the User role without Admin, and Unassigned otherwise. |
| UserPages.GetUserRoleSpec | SBooks/Pages/Admin/Users/Delete.cshtml.cs:106-113 | The role text names the strongest role held: Admin first, then User, else "not assigned", each exactly in its case. |
| UserPages.LabelTextDistinct | SBooks/Pages/Admin/Users/Delete.cshtml.cs:106-122 | The three role texts differ, and so do the three badge classes. |
| UserPages.BadgeFollowsRole | SBooks/Pages/Admin/Users/Delete.cshtml.cs:115-122 | Two users share a badge exactly when they share a role text. |
| UserPages.UserDetailsFound | SBooks/Pages/Admin/Users/Details.cshtml.cs:20-50 | The page exists exactly for an existing user and shows that user's row. |
| UserPages.UserDetailsSelections | SBooks/Pages/Admin/Users/Details.cshtml.cs:44-47 | The page shows the five newest books the user administers and the five most recently updated reviews, newest first, none left out newer than one shown; the favourite total counts the user's favourites. |
| UserPages.RecentActivitiesSpec | SBooks/Pages/Admin/Users/Details.cshtml.cs:35-46 | At most ten activity rows, all the user's, newest first, fewer only when the user has fewer. |
| Entities.Inc32 | SBooks/Pages/Books/Details.cshtml.cs:54 | A view counter incremented as a C# `int` stays in 32-bit range, adds one below `int.MaxValue` and wraps to `int.MinValue` at it. |
| Entities.TimeKeyOrder | SBooks/Pages/Admin/Dashboard/Index.cshtml.cs:61-66 | A timestamp in a later month sorts after one in an earlier month, whichever side nulls sort on. |
| Breadcrumbs.AdminPage.constructor | SBooks/Pages/Admin/AdminPageModel.cs:44-62 | No breadcrumb is set before `SetBreadcrumb` runs. |
| Breadcrumbs.AdminPage.SetBreadcrumb | SBooks/Pages/Admin/AdminPageModel.cs:44-62 | The loop stores exactly the markup of every item, in order. |
| Breadcrumbs.PrefixIsLinks | SBooks/Pages/Admin/AdminPageModel.cs:47-59 | Before the last item, the markup built so far is the anchors of the items handled, in order. |
| Breadcrumbs.LinksStep | SBooks/Pages/Admin/AdminPageModel.cs:56-58 | Each earlier item adds its own anchor at the end. |
| Breadcrumbs.RenderedShape | SBooks/Pages/Admin/AdminPageModel.cs:44-62 | No items give an empty trail; otherwise every item but the last is an anchor to its url, in input order, and the last is marked as the current page without a link. |
| BooksReport.BooksReportPage.constructor | SBooks/Pages/Admin/Reports/Books.cshtml.cs:15-32 | A bound page holds the filters and zero statistics. |
| BooksReport.BooksReportPage.LoadStatistics | SBooks/Pages/Admin/Reports/Books.cshtml.cs:71-94 | The filters are kept; the count, average price, total views and review count are those of the filtered books, and the average rating is 0. |
| BooksReport.BooksReportPage.Show | SBooks/Pages/Admin/Reports/Books.cshtml.cs:84-93 | The statistics become the given values and the filters are kept. |
| BooksReport.ReportBooksSpec | SBooks/Pages/Admin/Reports/Books.cshtml.cs:73-82 | A book is counted exactly when it is in the table and matches each given filter: a non-empty genre, a publisher, an author. |
| BooksReport.UnfilteredReport | SBooks/Pages/Admin/Reports/Books.cshtml.cs:71-90 | With no filter the report covers every book and, reviews referring to existing books, every review. |
| BooksReport.PriceTotalAtLeast | SBooks/Pages/Admin/Reports/Books.cshtml.cs:85 | The sum of the non-null prices is at least the lowest price times their number. |
| BooksReport.PriceTotalAtMost | SBooks/Pages/Admin/Reports/Books.cshtml.cs:85 | The sum of the non-null prices is at most the highest price times their number. |
| BooksReport.AveragePriceBounds | SBooks/Pages/Admin/Reports/Books.cshtml.cs:85 | The average price is 0 when no book has a price, and otherwise lies between the lowest and the highest price. |
| BooksReport.ReviewsPerBook | SBooks/Pages/Admin/Reports/Books.cshtml.cs:89-90 | Over books with distinct ids, the review count is the sum of each book's own review count. |
| BooksReport.ReviewsCountReplies | SBooks/Pages/Admin/Reports/Books.cshtml.cs:89-90 | The review count is the top-level reviews of the books plus the replies to them. |
| BooksReport.BandsPartition | SBooks/Pages/Admin/Reports/Books.cshtml.cs:150-170 | A price lies in some band exactly when it is in [0, decimal.MaxValue), and then in exactly one. |
| BooksReport.CountAdjacent | SBooks/Pages/Admin/Reports/Books.cshtml.cs:166 | The books of two adjacent half-open bands are the books of their union. |
| BooksReport.BooksByPriceRange | SBooks/Pages/Admin/Reports/Books.cshtml.cs:150-170 | At most the five bands, each listed with at least one book. |
| BooksReport.BandsListed | SBooks/Pages/Admin/Reports/Books.cshtml.cs:163-167 | Every listed band has at least one book, and a band is listed, with its count, exactly when a book's price lies in it. |
| BooksReport.BandsInOrder | SBooks/Pages/Admin/Reports/Books.cshtml.cs:152-167 | The listed bands keep the display order of the bands. |
| BooksReport.ChainTotal | SBooks/Pages/Admin/Reports/Books.cshtml.cs:152-167 | Over consecutive bands, the band counts add up to the count over their whole span. |
| BooksReport.BandsTotal | SBooks/Pages/Admin/Reports/Books.cshtml.cs:150-170 | The listed counts add up to the number of books priced in [0, decimal.MaxValue). |
| Grouping.TalliesSpec | SBooks/Pages/Admin/Dashboard/Index.cshtml.cs:116-124 | `GroupBy` followed by a count lists each key once, each group non-empty and counting the rows with its key, and every row's key is listed. |
| Grouping.TopTalliesSpec | SBooks/Pages/Admin/Dashboard/Index.cshtml.cs:90-95 | The `n` largest groups: at most `n`, distinct, largest first, each with its size; a key left out means `n` are listed, none smaller. |
| Dashboard.RecentUsers | SBooks/Pages/Admin/Dashboard/Index.cshtml.cs:54-58 | At most five users, each a user of the table holding the "User" role. |
| Dashboard.RecentBooks | SBooks/Pages/Admin/Dashboard/Index.cshtml.cs:61-66 | Five books of the table, or all of them when there are fewer. |
| Dashboard.RecentReviews | SBooks/Pages/Admin/Dashboard/Index.cshtml.cs:69-74 | Five reviews or replies of the table, or all of them when there are fewer. |
| Dashboard.RecentListsSpec | SBooks/Pages/Admin/Dashboard/Index.cshtml.cs:54-74 | Each of the three lists is newest first (a null creation time first of all), and no row left out of a list — for users, no user holding the "User" role — comes before one listed. |
| Dashboard.TopViewedBooks | SBooks/Pages/Admin/Dashboard/Index.cshtml.cs:77-82 | At most five books, each a book of the table with a view count. |
| Dashboard.TopViewedBooksSpec | SBooks/Pages/Admin/Dashboard/Index.cshtml.cs:77-82 | At most five books, all with a view count, most views first; a book with a view count left out has no more views than any listed. |
| Dashboard.SearchGroupSize | SBooks/Pages/Admin/Dashboard/Index.cshtml.cs:85-92 | A group of searched texts is non-empty only for a non-empty text, and then counts the logged searches with exactly that text. |
| Dashboard.TopSearchTerms | SBooks/Pages/Admin/Dashboard/Index.cshtml.cs:85-95 | At most five terms. |
| Dashboard.TopSearchTermsSpec | SBooks/Pages/Admin/Dashboard/Index.cshtml.cs:85-95 | At most five terms, none twice, each non-empty and searched, most searched first; a searched term left out means five are listed, each searched at least as often. |
| Dashboard.TopAuthors | SBooks/Pages/Admin/Dashboard/Index.cshtml.cs:98-108 | Five authors of the table, or all of them when there are fewer. |
| Dashboard.TopAuthorsSpec | SBooks/Pages/Admin/Dashboard/Index.cshtml.cs:98-108 | Five authors, or all of them when there are fewer, most books first; no author left out has more books than one listed. |
| Dashboard.GenreGroup | SBooks/Pages/Admin/Dashboard/Index.cshtml.cs:111-124 | The group of a genre is non-empty only for a non-empty genre, and then is every book of that genre, with their views. |
| Dashboard.GenreStatistics | SBooks/Pages/Admin/Dashboard/Index.cshtml.cs:111-126 | At most ten genres. |
| Dashboard.GenreStatisticsSpec | SBooks/Pages/Admin/Dashboard/Index.cshtml.cs:111-126 | At most ten genres, none twice, each non-empty with its number of books and their views (a null count as 0), most books first; a genre with books left out means ten are listed, none with fewer. |
| Dashboard.MonthGroup | SBooks/Pages/Admin/Dashboard/Index.cshtml.cs:129-146 | A month's group counts the books created in that month since the cut-off. |
| Dashboard.MonthsAscending | SBooks/Pages/Admin/Dashboard/Index.cshtml.cs:147 | Sorting entries with distinct months by year, then month, leaves them strictly ascending. |
| Dashboard.MonthlyStatistics | SBooks/Pages/Admin/Dashboard/Index.cshtml.cs:129-148 | The months come in ascending order of year, then month. |
| Dashboard.MonthlyStatisticsSpec | SBooks/Pages/Admin/Dashboard/Index.cshtml.cs:129-148 | Months strictly ascending, each with the number of books created in it since the cut-off (at least one); every such book's month is listed. |
| Dashboard.DashboardPage.constructor | SBooks/Pages/Admin/Dashboard/Index.cshtml.cs:18-39 | A new page has zero totals and empty lists. |
| Dashboard.DashboardPage.OnGet | SBooks/Pages/Admin/Dashboard/Index.cshtml.cs:41-165 | Each total is set exactly when its query is reached before a failure; with no failure every list is its query's result, and after a failure every list is empty. |
| Dashboard.DashboardPage.SetTotals | SBooks/Pages/Admin/Dashboard/Index.cshtml.cs:46-51 | The six counts are set in order up to the failing call, and the lists are unchanged. |
| Dashboard.DashboardPage.ShowLists | SBooks/Pages/Admin/Dashboard/Index.cshtml.cs:54-163 | The eight lists become the given values and the totals are unchanged. |

## Left out

- Related books on the detail page (`LoadRelatedBooksAsync`) are display data and are not modelled.
- Page rendering, view data, redirects, TempData messages and JSON shapes: only the data a handler computes and the rows it writes are modelled.
- Authentication: the caller is a parameter (anonymous, or signed in with a user-id claim that may fail to parse).
- Clocks: every `DateTime.UtcNow` / `DateTime.Now` is a `now` parameter.
- Navigation loading (`Include`, lazy loading): queries look related rows up by key instead.
- Strings: `ToLower` folds ASCII letters only, and string order is ordinal; the database's collation and culture-aware casing are not modelled.
- Sorting: rows with equal keys keep catalogue order (the sort is stable); PostgreSQL leaves that order unspecified.
- Column lengths, decimal precision of prices and the database's own type limits are not enforced.
- Averages are exact rationals rather than `double`.
- BookService.CardSpec: review and favourite counts are unbounded naturals rather than 32-bit `int`, because no realistic table reaches the limit.
- ReviewVotes.VoteKeepsCounters: assumes fewer than 2^31−1 vote rows, so that the 32-bit counters can hold the counts.
- ReviewVotes.VoteTwiceRestores: assumes the review's counters are not null and below the 32-bit maximum; a null counter comes back as 0 and a saturated counter does not come back.
- Integer widths: totals, sums of view counts and page arithmetic are unbounded integers; only the counters the handlers increment or decrement wrap or saturate at 32 bits as in C#.
- Prices: the `numeric(10,2)` price is an exact real, and the report's average price is an exact quotient rather than a rounded `decimal`.
- Equal sort keys: rows that tie keep table order, standing for the order PostgreSQL happens to return.
- Time: "six months ago" on the dashboard is the `since` parameter, and the date bounds of the list filters arrive already converted from the request's time zone.
- Password hashing: the administrator's user forms and registration receive the hash; the user service's password change compares and stores the typed text, as the source does; the hasher is not modelled.
- URL escaping and price formatting in the re-sort links of the book list are parameters whose only stated property is that they never produce `&`.
- Exceptions from `SaveChanges` other than the foreign-key refusal on insert are not modelled, nor is concurrent editing.
- The create and register handlers save twice (the user, then the role links), and so does the user service's password change (the password, then the activity log); the model writes both in one step, since nothing observes the state in between.
- TempData and status messages, `LoadSidebarData`, `GetUserAge`, the dropdown loaders of the list and report pages and the GET handlers of the edit pages only prepare display data and are not modelled.
- The report's timeline, genre chart, most-viewed and without-reviews charts and its filter dropdowns are chart JSON, not modelled; the headline statistics and the price bands are.
- The Excel and CSV exports of the book list are file formats, not modelled.
- Breadcrumb text and urls are copied into the markup as given, as the source does; escaping is not modelled because the source does none.
- The last price band's label is kept exactly as the source file spells it (UTF-8 read back as Latin-1).
- The dashboard's failing database call is the `failAt` parameter; which exception is thrown is not modelled.
- AuthorService.AuthorAverageRating: the author's average rating is an exact real rather than a `double`.
- UserService.ProfileAdminStats: assumes the favourites count of SBooks/Services/UserService.cs:62-64 runs as a database query. Its filter is a lambda over the user's loaded book list, which the query provider may refuse to translate; then the profile of a user who added a book ends in an exception instead of showing the count.
- Book delete: removing the cover image file (`DeleteImage`, SBooks/Pages/Admin/Books/Delete.cshtml.cs:84-87) before the row is removed is a file-system effect, not modelled; only the rows are.

## Findings

| source | as written | input that shows it | evidently intended | confidence | as-written member | corrected member |
|---|---|---|---|---|---|---|
| SBooks/Pages/Admin/Users/Delete.cshtml.cs:85-94 | Deleting a user lets the database cascade remove the user's vote rows, but the like and dislike counters of the surviving reviews they were cast on are not decremented. | User 1's top-level review 4 of book 3 has one like, cast by user 2; delete user 2. Review 4 keeps like count 1 with no vote row behind it. | Every review's counters keep matching its vote rows, as the vote handler maintains them. | not executed | UserDelete.DeleteUserAsWrittenLeavesStaleCounters | UserDelete.DeleteUserKeepsCounters |
