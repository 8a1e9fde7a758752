// The admin pages that delete a book, an author or a publisher. Each page
// refuses to delete a row that other rows still depend on; the database's
// own `ON DELETE` rules (SbooksContext.cs) would otherwise clear the books'
// references (SetNull) or drop the dependent rows (Cascade).
module Deletes {
  import opened Seqs
  import opened Entities
  import opened Schema
  import opened Sorting
  import opened Store
  import opened BookService
  import opened AuthorService

  // ---------------------------------------------------------------------------
  // SetNull on the books' references.

  /** `books.author_id ... ON DELETE SET NULL`: the books of a deleted author keep no author. */
  function ClearAuthor(books: seq<Book>, authorId: int): (r: seq<Book>)
    ensures |r| == |books|
    ensures forall k :: 0 <= k < |r| ==> r[k].bookId == books[k].bookId && r[k].authorId != Some(authorId)
  {
    Map(books, (b: Book) => if b.authorId == Some(authorId) then b.(authorId := None) else b)
  }

  /** `books.publisher_id ... ON DELETE SET NULL`. */
  function ClearPublisher(books: seq<Book>, publisherId: int): (r: seq<Book>)
    ensures |r| == |books|
    ensures forall k :: 0 <= k < |r| ==> r[k].bookId == books[k].bookId && r[k].publisherId != Some(publisherId)
  {
    Map(books, (b: Book) => if b.publisherId == Some(publisherId) then b.(publisherId := None) else b)
  }

  /** `books.admin_id ... ON DELETE SET NULL`. */
  function ClearAdmin(books: seq<Book>, userId: int): (r: seq<Book>)
    ensures |r| == |books|
    ensures forall k :: 0 <= k < |r| ==> r[k].bookId == books[k].bookId && r[k].adminId != Some(userId)
  {
    Map(books, (b: Book) => if b.adminId == Some(userId) then b.(adminId := None) else b)
  }

  /** Clearing a reference no book holds changes nothing, and a reference some book holds changes that book. */
  lemma ClearAuthorUnused(books: seq<Book>, authorId: int)
    ensures ClearAuthor(books, authorId) == books <==> forall b :: b in books ==> b.authorId != Some(authorId)
  {
    if forall b :: b in books ==> b.authorId != Some(authorId) {
      assert forall k :: 0 <= k < |books| ==> ClearAuthor(books, authorId)[k] == books[k] by {
        forall k | 0 <= k < |books| ensures ClearAuthor(books, authorId)[k] == books[k] {
          assert books[k] in books;
        }
      }
    } else {
      var b :| b in books && b.authorId == Some(authorId);
      var k :| 0 <= k < |books| && books[k] == b;
      assert ClearAuthor(books, authorId)[k] != books[k];
    }
  }

  lemma ClearPublisherUnused(books: seq<Book>, publisherId: int)
    ensures ClearPublisher(books, publisherId) == books <==> forall b :: b in books ==> b.publisherId != Some(publisherId)
  {
    if forall b :: b in books ==> b.publisherId != Some(publisherId) {
      assert forall k :: 0 <= k < |books| ==> ClearPublisher(books, publisherId)[k] == books[k] by {
        forall k | 0 <= k < |books| ensures ClearPublisher(books, publisherId)[k] == books[k] {
          assert books[k] in books;
        }
      }
    } else {
      var b :| b in books && b.publisherId == Some(publisherId);
      var k :| 0 <= k < |books| && books[k] == b;
      assert ClearPublisher(books, publisherId)[k] != books[k];
    }
  }

  lemma ClearAdminUnused(books: seq<Book>, userId: int)
    ensures ClearAdmin(books, userId) == books <==> forall b :: b in books ==> b.adminId != Some(userId)
  {
    if forall b :: b in books ==> b.adminId != Some(userId) {
      assert forall k :: 0 <= k < |books| ==> ClearAdmin(books, userId)[k] == books[k] by {
        forall k | 0 <= k < |books| ensures ClearAdmin(books, userId)[k] == books[k] {
          assert books[k] in books;
        }
      }
    } else {
      var b :| b in books && b.adminId == Some(userId);
      var k :| 0 <= k < |books| && books[k] == b;
      assert ClearAdmin(books, userId)[k] != books[k];
    }
  }

  // ---------------------------------------------------------------------------
  // Books/Delete

  /** Why a book cannot be deleted: it has reviews (replies included) or favourites, with their numbers. */
  datatype BookIssue = HasReviews(reviews: nat) | HasFavorites(favorites: nat)

  datatype BookDeleteResult = BookNotFound | BookBlocked(issues: seq<BookIssue>) | BookDeleted

  /** `book.Reviews.Count`: every review row of the book, replies included. */
  function AllReviewCount(t: Tables, bookId: int): nat
  {
    Count(t.reviews, (r: Review) => r.bookId == bookId)
  }

  /** The reasons listed in the error message, reviews first. */
  function BookIssues(reviews: nat, favorites: nat): seq<BookIssue>
  {
    (if reviews > 0 then [HasReviews(reviews)] else []) + (if favorites > 0 then [HasFavorites(favorites)] else [])
  }

  /** The state after `OnPostAsync` of the book delete page, and its outcome. */
  function DeleteBookSpec(t: Tables, id: Option<int>): (Tables, BookDeleteResult)
  {
    if id.None? then (t, BookNotFound)
    else
      var i := FindBook(t.books, id.value);
      if i.None? then (t, BookNotFound)
      else
        var nr := AllReviewCount(t, id.value);
        var nf := FavoriteCount(t, id.value);
        if nr > 0 || nf > 0 then (t, BookBlocked(BookIssues(nr, nf)))
        else (t.(books := RemoveAt(t.books, i.value)), BookDeleted)
  }

  /** The issue list is empty exactly when there is nothing to report, and names each kind of dependent once, with its count. */
  lemma BookIssuesSpec(reviews: nat, favorites: nat)
    ensures BookIssues(reviews, favorites) == [] <==> reviews == 0 && favorites == 0
    ensures HasReviews(reviews) in BookIssues(reviews, favorites) <==> reviews > 0
    ensures HasFavorites(favorites) in BookIssues(reviews, favorites) <==> favorites > 0
    ensures |BookIssues(reviews, favorites)| == (if reviews > 0 then 1 else 0) + (if favorites > 0 then 1 else 0)
  {
  }

  /** Removing a book that no review or favourite refers to. */
  lemma RemoveBookKeepsValid(t: Tables, i: nat)
    requires Valid(t) && i < |t.books|
    requires forall r :: r in t.reviews ==> r.bookId != t.books[i].bookId
    requires forall f :: f in t.favorites ==> f.bookId != t.books[i].bookId
    ensures Valid(t.(books := RemoveAt(t.books, i)))
    ensures BookIds(RemoveAt(t.books, i)) == BookIds(t.books) - {t.books[i].bookId}
  {
    var s := RemoveAt(t.books, i);
    KeySetRemove(t.books, i, BookKey);
    forall a, b | 0 <= a < b < |s|
      ensures s[a].bookId != s[b].bookId
    {
      var a' := if a < i then a else a + 1;
      var b' := if b < i then b else b + 1;
      assert s[a] == t.books[a'] && s[b] == t.books[b'];
    }
  }

  method DeleteBook(ctx: Context, id: Option<int>) returns (res: BookDeleteResult)
    requires ctx.Valid()
    modifies ctx
    ensures (ctx.Db(), res) == DeleteBookSpec(old(ctx.Db()), id)
    ensures ctx.Valid()
  {
    ghost var t := ctx.Db();
    if id.None? {
      return BookNotFound;
    }
    var i := FindBook(ctx.books, id.value);
    if i.None? {
      return BookNotFound;
    }
    var nr := AllReviewCount(ctx.Db(), id.value);
    var nf := FavoriteCount(ctx.Db(), id.value);
    if nr > 0 || nf > 0 {
      return BookBlocked(BookIssues(nr, nf));
    }
    CountZero(t.reviews, (r: Review) => r.bookId == id.value);
    CountZero(t.favorites, (f: FavoriteBook) => f.bookId == id.value);
    RemoveBookKeepsValid(t, i.value);
    ctx.books := RemoveAt(ctx.books, i.value);
    res := BookDeleted;
  }

  /**
   * A missing id or book changes nothing; a book with any review or
   * favourite is kept and the page says so; otherwise exactly that book
   * leaves the books table, no other table changes, and nothing referred
   * to it.
   */
  lemma DeleteBookOutcome(t: Tables, id: Option<int>)
    ensures var (t', res) := DeleteBookSpec(t, id);
      res == BookNotFound <==> id.None? || id.value !in BookIds(t.books)
    ensures var (t', res) := DeleteBookSpec(t, id);
      res.BookBlocked? <==> (id.Some? && id.value in BookIds(t.books) &&
        ((exists r :: r in t.reviews && r.bookId == id.value) || (exists f :: f in t.favorites && f.bookId == id.value)))
    ensures var (t', res) := DeleteBookSpec(t, id);
      !res.BookDeleted? ==> t' == t
    ensures var (t', res) := DeleteBookSpec(t, id);
      res.BookDeleted? ==> (t' == t.(books := t'.books) &&
        (forall r :: r in t.reviews ==> r.bookId != id.value) && (forall f :: f in t.favorites ==> f.bookId != id.value))
    ensures var (t', res) := DeleteBookSpec(t, id);
      res.BookDeleted? && BooksOk(t.books) ==> BookIds(t'.books) == BookIds(t.books) - {id.value}
  {
    if id.Some? {
      var i := FindBook(t.books, id.value);
      CountZero(t.reviews, (r: Review) => r.bookId == id.value);
      CountZero(t.favorites, (f: FavoriteBook) => f.bookId == id.value);
      if i.Some? && BooksOk(t.books) {
        KeySetRemove(t.books, i.value, BookKey);
      }
    }
  }

  // ---------------------------------------------------------------------------
  // Authors/Delete

  /** What the author delete page shows: the number of books and the five newest (in memory, a null date last). */
  datatype AuthorDeleteInfo = AuthorDeleteInfo(bookCount: nat, authorBooks: seq<Book>)

  datatype AuthorDeleteResult = AuthorNotFound | AuthorBlocked(info: AuthorDeleteInfo) | AuthorDeleted

  const AuthorBooksShown: int := 5

  /** `OrderByDescending(b => b.CreatedAt)` over loaded rows. */
  function LoadedCreatedKey(b: Book): Key
  {
    TimeKey(b.createdAt, false)
  }

  function AuthorDeleteInfoOf(t: Tables, authorId: int): AuthorDeleteInfo
  {
    var books := BooksOf(t, authorId);
    AuthorDeleteInfo(|books|, Take(SortBy(books, LoadedCreatedKey, true), AuthorBooksShown))
  }

  /** `OnGetAsync`: the page for an existing author, nothing otherwise. */
  function AuthorDeletePage(t: Tables, id: Option<int>): Option<AuthorDeleteInfo>
  {
    if id.None? || FindAuthor(t.authors, id.value).None? then None else Some(AuthorDeleteInfoOf(t, id.value))
  }

  /** The page counts the author's books and shows at most five of them, newest first, each of them the author's. */
  lemma AuthorDeleteInfoSpec(t: Tables, authorId: int)
    ensures var info := AuthorDeleteInfoOf(t, authorId);
      info.bookCount == Count(t.books, (b: Book) => WrittenBy(b, authorId)) &&
      |info.authorBooks| == (if info.bookCount < 5 then info.bookCount else 5)
    ensures var info := AuthorDeleteInfoOf(t, authorId);
      Sorted(info.authorBooks, LoadedCreatedKey, true) &&
      forall b :: b in info.authorBooks ==> b in t.books && b.authorId == Some(authorId)
  {
    var books := BooksOf(t, authorId);
    var sorted := SortBy(books, LoadedCreatedKey, true);
    SortBySorted(books, LoadedCreatedKey, true);
    SortByMembers(books, LoadedCreatedKey, true);
    if |sorted| > 5 {
      SortedSlice(sorted, LoadedCreatedKey, true, 0, 5);
    }
  }

  /** The state after `OnPostAsync` of the author delete page, and its outcome. */
  function DeleteAuthorSpec(t: Tables, id: Option<int>): (Tables, AuthorDeleteResult)
  {
    if id.None? then (t, AuthorNotFound)
    else
      var i := FindAuthor(t.authors, id.value);
      if i.None? then (t, AuthorNotFound)
      else if Any(t.books, (b: Book) => WrittenBy(b, id.value)) then (t, AuthorBlocked(AuthorDeleteInfoOf(t, id.value)))
      else (t.(authors := RemoveAt(t.authors, i.value), books := ClearAuthor(t.books, id.value)), AuthorDeleted)
  }

  /** Removing an author whom no book names. */
  lemma RemoveAuthorKeepsValid(t: Tables, i: nat)
    requires Valid(t) && i < |t.authors|
    requires forall b :: b in t.books ==> b.authorId != Some(t.authors[i].authorId)
    ensures Valid(t.(authors := RemoveAt(t.authors, i)))
  {
    var s := RemoveAt(t.authors, i);
    KeySetRemove(t.authors, i, AuthorKey);
    forall a, b | 0 <= a < b < |s|
      ensures s[a].authorId != s[b].authorId
      ensures s[a].email.Some? && s[b].email.Some? ==> s[a].email != s[b].email
    {
      var a' := if a < i then a else a + 1;
      var b' := if b < i then b else b + 1;
      assert s[a] == t.authors[a'] && s[b] == t.authors[b'];
    }
  }

  method DeleteAuthor(ctx: Context, id: Option<int>) returns (res: AuthorDeleteResult)
    requires ctx.Valid()
    modifies ctx
    ensures (ctx.Db(), res) == DeleteAuthorSpec(old(ctx.Db()), id)
    ensures ctx.Valid()
  {
    ghost var t := ctx.Db();
    if id.None? {
      return AuthorNotFound;
    }
    var i := FindAuthor(ctx.authors, id.value);
    if i.None? {
      return AuthorNotFound;
    }
    var books := BooksOf(ctx.Db(), id.value);
    CountPositive(t.books, (b: Book) => WrittenBy(b, id.value));
    if |books| > 0 {
      return AuthorBlocked(AuthorDeleteInfoOf(ctx.Db(), id.value));
    }
    CountZero(t.books, (b: Book) => WrittenBy(b, id.value));
    ClearAuthorUnused(t.books, id.value);
    RemoveAuthorKeepsValid(t, i.value);
    ctx.authors := RemoveAt(ctx.authors, i.value);
    ctx.books := ClearAuthor(ctx.books, id.value);
    res := AuthorDeleted;
  }

  /**
   * A missing id or author changes nothing; an author with books is kept
   * and the page shows them; otherwise exactly that author leaves the
   * authors table and, since no book named the author, the books table
   * stays as it was.
   */
  lemma DeleteAuthorOutcome(t: Tables, id: Option<int>)
    ensures var (t', res) := DeleteAuthorSpec(t, id);
      res == AuthorNotFound <==> id.None? || id.value !in AuthorIds(t.authors)
    ensures var (t', res) := DeleteAuthorSpec(t, id);
      res.AuthorBlocked? <==> id.Some? && id.value in AuthorIds(t.authors) && exists b :: b in t.books && b.authorId == Some(id.value)
    ensures var (t', res) := DeleteAuthorSpec(t, id);
      res.AuthorBlocked? ==> t' == t && res.info == AuthorDeleteInfoOf(t, id.value) && res.info.bookCount > 0
    ensures var (t', res) := DeleteAuthorSpec(t, id);
      res == AuthorNotFound ==> t' == t
    ensures var (t', res) := DeleteAuthorSpec(t, id);
      res.AuthorDeleted? ==> (t' == t.(authors := t'.authors) &&
        |t'.authors| == |t.authors| - 1 && forall a :: a in t'.authors ==> a in t.authors)
    ensures var (t', res) := DeleteAuthorSpec(t, id);
      res.AuthorDeleted? && AuthorsOk(t.authors) ==> AuthorIds(t'.authors) == AuthorIds(t.authors) - {id.value}
  {
    if id.Some? {
      var p := (b: Book) => WrittenBy(b, id.value);
      var i := FindAuthor(t.authors, id.value);
      CountPositive(t.books, p);
      CountZero(t.books, p);
      if Any(t.books, p) {
        var k :| 0 <= k < |t.books| && p(t.books[k]);
        assert t.books[k] in t.books;
      }
      ClearAuthorUnused(t.books, id.value);
      if i.Some? && AuthorsOk(t.authors) {
        KeySetRemove(t.authors, i.value, AuthorKey);
      }
    }
  }

  // ---------------------------------------------------------------------------
  // Publishers/Delete

  /** What the publisher delete page shows: the number of books, whether any exist, and the first five. */
  datatype PublisherDeleteInfo = PublisherDeleteInfo(bookCount: nat, hasDependencies: bool, sampleBooks: seq<Book>)

  datatype PublisherDeleteResult = PublisherNotFound | PublisherBlocked(bookCount: nat) | PublisherDeleted

  const SampleBooksShown: int := 5

  predicate PublishedBy(b: Book, publisherId: int)
  {
    b.publisherId == Some(publisherId)
  }

  function PublisherBooks(t: Tables, publisherId: int): seq<Book>
  {
    Filter(t.books, (b: Book) => PublishedBy(b, publisherId))
  }

  /** `OnGetAsync` of the publisher delete page. */
  function PublisherDeletePage(t: Tables, id: Option<int>): Option<PublisherDeleteInfo>
  {
    if id.None? || FindPublisher(t.publishers, id.value).None? then None
    else
      var books := PublisherBooks(t, id.value);
      Some(PublisherDeleteInfo(|books|, |books| > 0, Take(books, SampleBooksShown)))
  }

  /** The page is shown for an existing publisher only; it flags dependencies exactly when a book names the publisher, and its samples are the first such books. */
  lemma PublisherDeletePageSpec(t: Tables, id: Option<int>)
    ensures PublisherDeletePage(t, id).Some? <==> id.Some? && id.value in PublisherIds(t.publishers)
    ensures var p := PublisherDeletePage(t, id);
      p.Some? ==> (p.value.hasDependencies <==> exists b :: b in t.books && PublishedBy(b, id.value))
    ensures var p := PublisherDeletePage(t, id);
      p.Some? ==> (|p.value.sampleBooks| == (if p.value.bookCount < 5 then p.value.bookCount else 5) &&
        p.value.sampleBooks == PublisherBooks(t, id.value)[..|p.value.sampleBooks|])
    ensures var p := PublisherDeletePage(t, id);
      p.Some? ==> forall b :: b in p.value.sampleBooks ==> b in t.books && PublishedBy(b, id.value)
  {
    if id.Some? {
      var books := PublisherBooks(t, id.value);
      if |books| > 0 {
        assert books[0] in books;
      }
    }
  }

  /** The state after `OnPostAsync` of the publisher delete page, and its outcome. */
  function DeletePublisherSpec(t: Tables, id: Option<int>): (Tables, PublisherDeleteResult)
  {
    if id.None? then (t, PublisherNotFound)
    else
      var i := FindPublisher(t.publishers, id.value);
      if i.None? then (t, PublisherNotFound)
      else
        var n := Count(t.books, (b: Book) => PublishedBy(b, id.value));
        if n > 0 then (t, PublisherBlocked(n))
        else (t.(publishers := RemoveAt(t.publishers, i.value), books := ClearPublisher(t.books, id.value)), PublisherDeleted)
  }

  /** Removing a publisher that no book names. */
  lemma RemovePublisherKeepsValid(t: Tables, i: nat)
    requires Valid(t) && i < |t.publishers|
    requires forall b :: b in t.books ==> b.publisherId != Some(t.publishers[i].publisherId)
    ensures Valid(t.(publishers := RemoveAt(t.publishers, i)))
  {
    var s := RemoveAt(t.publishers, i);
    KeySetRemove(t.publishers, i, PublisherKey);
    forall a, b | 0 <= a < b < |s|
      ensures s[a].publisherId != s[b].publisherId
    {
      var a' := if a < i then a else a + 1;
      var b' := if b < i then b else b + 1;
      assert s[a] == t.publishers[a'] && s[b] == t.publishers[b'];
    }
  }

  method DeletePublisher(ctx: Context, id: Option<int>) returns (res: PublisherDeleteResult)
    requires ctx.Valid()
    modifies ctx
    ensures (ctx.Db(), res) == DeletePublisherSpec(old(ctx.Db()), id)
    ensures ctx.Valid()
  {
    ghost var t := ctx.Db();
    if id.None? {
      return PublisherNotFound;
    }
    var i := FindPublisher(ctx.publishers, id.value);
    if i.None? {
      return PublisherNotFound;
    }
    var n := Count(ctx.books, (b: Book) => PublishedBy(b, id.value));
    if n > 0 {
      return PublisherBlocked(n);
    }
    CountZero(t.books, (b: Book) => PublishedBy(b, id.value));
    ClearPublisherUnused(t.books, id.value);
    RemovePublisherKeepsValid(t, i.value);
    ctx.publishers := RemoveAt(ctx.publishers, i.value);
    ctx.books := ClearPublisher(ctx.books, id.value);
    res := PublisherDeleted;
  }

  /**
   * A missing id or publisher changes nothing; a publisher with books is
   * kept; otherwise exactly that publisher leaves its table and the books
   * table stays as it was.
   */
  lemma DeletePublisherOutcome(t: Tables, id: Option<int>)
    ensures var (t', res) := DeletePublisherSpec(t, id);
      res == PublisherNotFound <==> id.None? || id.value !in PublisherIds(t.publishers)
    ensures var (t', res) := DeletePublisherSpec(t, id);
      res.PublisherBlocked? <==> id.Some? && id.value in PublisherIds(t.publishers) && exists b :: b in t.books && PublishedBy(b, id.value)
    ensures var (t', res) := DeletePublisherSpec(t, id);
      !res.PublisherDeleted? ==> t' == t
    ensures var (t', res) := DeletePublisherSpec(t, id);
      res.PublisherDeleted? ==> t' == t.(publishers := t'.publishers) && |t'.publishers| == |t.publishers| - 1
    ensures var (t', res) := DeletePublisherSpec(t, id);
      res.PublisherDeleted? && PublishersOk(t.publishers) ==> PublisherIds(t'.publishers) == PublisherIds(t.publishers) - {id.value}
  {
    if id.Some? {
      var p := (b: Book) => PublishedBy(b, id.value);
      var i := FindPublisher(t.publishers, id.value);
      CountZero(t.books, p);
      ClearPublisherUnused(t.books, id.value);
      if i.Some? && PublishersOk(t.publishers) {
        KeySetRemove(t.publishers, i.value, PublisherKey);
      }
    }
  }
}
