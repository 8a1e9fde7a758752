// The admin list of authors (Pages/Admin/Authors/Index): a case-sensitive
// search by name and by email, a sort chosen by name and direction, and
// pages of twelve whose number is used as given.
module AuthorsIndex {
  import opened Seqs
  import opened Sorting
  import opened Text
  import opened Entities
  import opened AdminLists

  const AuthorsPageSize: int := 12

  /** Both searches are ordinal (`Contains` without lowering); a missing email never matches. */
  predicate AuthorMatches(a: Author, searchName: Option<string>, searchEmail: Option<string>)
  {
    (Given(searchName) ==> Contains(a.authorName, searchName.value)) &&
    (Given(searchEmail) ==> a.email.Some? && Contains(a.email.value, searchEmail.value))
  }

  function NameSearch(needle: string): Author -> bool
  {
    (a: Author) => Contains(a.authorName, needle)
  }

  function EmailSearch(needle: string): Author -> bool
  {
    (a: Author) => a.email.Some? && Contains(a.email.value, needle)
  }

  /** The authors both searches keep, in table order. */
  function MatchingAuthors(t: Tables, searchName: Option<string>, searchEmail: Option<string>): seq<Author>
  {
    var q := if Given(searchName) then Filter(t.authors, NameSearch(searchName.value)) else t.authors;
    if Given(searchEmail) then Filter(q, EmailSearch(searchEmail.value)) else q
  }

  /** An author is listed exactly when it is in the table and passes every search that is given. */
  lemma MatchingAuthorsSpec(t: Tables, searchName: Option<string>, searchEmail: Option<string>)
    ensures forall a :: a in MatchingAuthors(t, searchName, searchEmail) <==>
      a in t.authors && AuthorMatches(a, searchName, searchEmail)
    ensures |MatchingAuthors(t, searchName, searchEmail)| <= |t.authors|
  {
  }

  /** Unlike the other admin lists, the search is case-sensitive: "ann" does not find "Ann". */
  lemma SearchIsCaseSensitive()
    ensures !AuthorMatches(Author(1, "Ann", None, None, None, None), Some("ann"), None)
  {
    assert Given(Some("ann"));
    forall i | 0 <= i <= 3
      ensures !OccursAt("Ann", "ann", i)
    {
      if i == 0 {
        assert "Ann"[0..3][0] != "ann"[0];
      }
    }
  }

  // ---------------------------------------------------------------------------
  // The sort switch

  datatype AuthorOrder = ByName | ByEmail | ByBookCount | ByBirthDate

  /**
   * The column and direction: a known (lowered) column sorts descending
   * exactly when the direction is "desc" as written; anything else sorts
   * by name ascending whatever the direction.
   */
  function AuthorSort(sortBy: Option<string>, sortDirection: Option<string>): (AuthorOrder, bool)
  {
    var s := if sortBy.Some? then ToLower(sortBy.value) else "";
    var desc := sortDirection == Some("desc");
    if s == "authorname" then (ByName, desc)
    else if s == "email" then (ByEmail, desc)
    else if s == "bookcount" then (ByBookCount, desc)
    else if s == "birthdate" then (ByBirthDate, desc)
    else (ByName, false)
  }

  function BooksBy(t: Tables, authorId: int): nat
  {
    Count(t.books, (b: Book) => b.authorId == Some(authorId))
  }

  /** The key PostgreSQL compares: a missing email or birth date sorts as the largest. */
  function AuthorOrderKey(t: Tables, o: AuthorOrder): Author -> Key
  {
    (a: Author) =>
      match o
      case ByName => [Str(a.authorName)]
      case ByEmail => OptStrKey(a.email, true)
      case ByBookCount => [IntAtom(BooksBy(t, a.authorId))]
      case ByBirthDate => TimeKey(a.birthDate, true)
  }

  /** Only a lower-case "desc" on a known column reverses the order; an unknown column ignores the direction. */
  lemma AuthorSortSpec(sortBy: Option<string>, sortDirection: Option<string>)
    ensures AuthorSort(sortBy, sortDirection).1 <==>
      sortDirection == Some("desc") && sortBy.Some? &&
      ToLower(sortBy.value) in {"authorname", "email", "bookcount", "birthdate"}
    ensures sortBy.None? ==> AuthorSort(sortBy, sortDirection) == (ByName, false)
    ensures AuthorSort(sortBy, Some("DESC")).1 == false
  {
    assert "DESC" != "desc";
  }

  // ---------------------------------------------------------------------------
  // LoadAuthors

  /** The bound query parameters and the properties `LoadAuthors` fills in. */
  class AuthorsIndexPage {
    var searchName: Option<string>
    var searchEmail: Option<string>
    var sortBy: Option<string>
    var sortDirection: Option<string>
    var pageNumber: int
    var totalAuthors: nat
    var filteredAuthors: nat
    var authors: seq<Author>

    /** The page as bound from the query string, before loading. */
    constructor (searchName: Option<string>, searchEmail: Option<string>, sortBy: Option<string>, sortDirection: Option<string>, pageNumber: int)
      ensures this.searchName == searchName && this.searchEmail == searchEmail
      ensures this.sortBy == sortBy && this.sortDirection == sortDirection && this.pageNumber == pageNumber
      ensures totalAuthors == 0 && filteredAuthors == 0 && authors == []
    {
      this.searchName := searchName;
      this.searchEmail := searchEmail;
      this.sortBy := sortBy;
      this.sortDirection := sortDirection;
      this.pageNumber := pageNumber;
      totalAuthors, filteredAuthors, authors := 0, 0, [];
    }

    /** `TotalPages`, computed from the filtered count. */
    function TotalPages(): nat
      reads this
    {
      CeilDiv(filteredAuthors, AuthorsPageSize)
    }

    /** The sorted matching authors. */
    function Ordered(t: Tables): seq<Author>
      reads this
    {
      var (o, desc) := AuthorSort(sortBy, sortDirection);
      SortBy(MatchingAuthors(t, searchName, searchEmail), AuthorOrderKey(t, o), desc)
    }

    /**
     * `LoadAuthors`: the counts are always set; the page query fails (and
     * the list is not replaced) exactly when the page number is below one,
     * since PostgreSQL rejects a negative OFFSET.
     */
    method LoadAuthors(t: Tables) returns (ok: bool)
      modifies this
      ensures searchName == old(searchName) && searchEmail == old(searchEmail)
      ensures sortBy == old(sortBy) && sortDirection == old(sortDirection) && pageNumber == old(pageNumber)
      ensures totalAuthors == |t.authors|
      ensures filteredAuthors == |MatchingAuthors(t, searchName, searchEmail)|
      ensures ok <==> pageNumber >= 1
      ensures ok ==> authors == PageOf(Ordered(t), pageNumber, AuthorsPageSize)
      ensures !ok ==> authors == old(authors)
    {
      var query := t.authors;
      if Given(searchName) {
        query := Filter(query, NameSearch(searchName.value));
      }
      if Given(searchEmail) {
        query := Filter(query, EmailSearch(searchEmail.value));
      }
      var filtered := |query|;
      var (o, desc) := AuthorSort(sortBy, sortDirection);
      query := SortBy(query, AuthorOrderKey(t, o), desc);
      var page := DbPage(query, pageNumber, AuthorsPageSize);
      OffsetIsProduct(pageNumber, AuthorsPageSize);
      ok := page.Some?;
      Show(|t.authors|, filtered, if ok then page.value else authors);
    }

    /** Sets the properties the view renders; the bound query parameters stay. */
    method Show(total: nat, filtered: nat, listed: seq<Author>)
      modifies this
      ensures searchName == old(searchName) && searchEmail == old(searchEmail)
      ensures sortBy == old(sortBy) && sortDirection == old(sortDirection) && pageNumber == old(pageNumber)
      ensures totalAuthors == total && filteredAuthors == filtered && authors == listed
    {
      totalAuthors, filteredAuthors, authors := total, filtered, listed;
    }
  }

  /**
   * A page in range holds between one and twelve authors, all matching and
   * in the selected order; a page past the last one is empty, since the
   * page number is not clamped.
   */
  lemma AuthorsPageSpec(t: Tables, searchName: Option<string>, searchEmail: Option<string>, sortBy: Option<string>, sortDirection: Option<string>, page: int)
    requires page >= 1
    ensures var matching := MatchingAuthors(t, searchName, searchEmail);
      var (o, desc) := AuthorSort(sortBy, sortDirection);
      var listed := PageOf(SortBy(matching, AuthorOrderKey(t, o), desc), page, AuthorsPageSize);
      |listed| <= AuthorsPageSize && Sorted(listed, AuthorOrderKey(t, o), desc) &&
      (forall a :: a in listed ==> a in matching) &&
      (page <= CeilDiv(|matching|, AuthorsPageSize) ==> |listed| > 0) &&
      (page > CeilDiv(|matching|, AuthorsPageSize) ==> listed == [])
  {
    var matching := MatchingAuthors(t, searchName, searchEmail);
    var (o, desc) := AuthorSort(sortBy, sortDirection);
    var sorted := SortBy(matching, AuthorOrderKey(t, o), desc);
    SortBySorted(matching, AuthorOrderKey(t, o), desc);
    PageSorted(sorted, AuthorOrderKey(t, o), desc, page, AuthorsPageSize);
    SortByMembers(matching, AuthorOrderKey(t, o), desc);
    PageBounds(sorted, page, AuthorsPageSize);
    var pages := CeilDiv(|matching|, AuthorsPageSize);
    if page <= pages {
      PageInRangeNonEmpty(sorted, page, AuthorsPageSize);
    } else {
      CeilDivBounds(|matching|, AuthorsPageSize);
      OffsetIsProduct(page, AuthorsPageSize);
      MulMono(pages, page - 1, AuthorsPageSize);
    }
  }
}
