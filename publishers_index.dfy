// The admin list of publishers (Pages/Admin/Publishers/Index): a search
// over name, address and website, a sort chosen by name and direction,
// and pages of twelve whose number is clamped into range.
module PublishersIndex {
  import opened Seqs
  import opened Sorting
  import opened Text
  import opened Entities
  import opened AdminLists

  const PublishersPageSize: int := 12

  /** The search: the lowered term occurs in the lowered name, or in the (non-null) address or website. */
  predicate PublisherMatches(p: Publisher, needle: string)
  {
    Contains(ToLower(p.publisherName), needle) ||
    (p.address.Some? && Contains(ToLower(p.address.value), needle)) ||
    (p.website.Some? && Contains(ToLower(p.website.value), needle))
  }

  function PublisherSearch(needle: string): Publisher -> bool
  {
    (p: Publisher) => PublisherMatches(p, needle)
  }

  /** The publishers the search keeps, in table order; no search term keeps them all. */
  function MatchingPublishers(t: Tables, searchTerm: Option<string>): (r: seq<Publisher>)
  {
    if Given(searchTerm) then Filter(t.publishers, PublisherSearch(ToLower(searchTerm.value))) else t.publishers
  }

  /** A publisher is listed exactly when it is in the table and matches the search term, if one is given. */
  lemma MatchingPublishersSpec(t: Tables, searchTerm: Option<string>)
    ensures forall p :: p in MatchingPublishers(t, searchTerm) <==>
      p in t.publishers && (Given(searchTerm) ==> PublisherMatches(p, ToLower(searchTerm.value)))
    ensures |MatchingPublishers(t, searchTerm)| <= |t.publishers|
    ensures !Given(searchTerm) ==> MatchingPublishers(t, searchTerm) == t.publishers
  {
  }

  /** The case does not matter on either side: a search for "ABC" matches a publisher named "xabcx". */
  lemma SearchIgnoresCase()
    ensures var p := Publisher(1, "xabcx", None, None);
      PublisherMatches(p, ToLower("ABC"))
  {
    var p := Publisher(1, "xabcx", None, None);
    assert ToLower("ABC") == "abc";
    assert ToLower(p.publisherName) == "xabcx";
    assert OccursAt("xabcx", "abc", 1);
  }

  // ---------------------------------------------------------------------------
  // ApplySortingAsc / ApplySortingDesc

  datatype PublisherOrder = ByName | ByAddress | ByWebsite | ByBookCount

  function ParsePublisherOrder(sortBy: string): PublisherOrder
  {
    var s := ToLower(sortBy);
    if s == "address" then ByAddress
    else if s == "website" then ByWebsite
    else if s == "bookcount" then ByBookCount
    else ByName
  }

  /** The publisher's books (`p.Books`). */
  function BooksOf(t: Tables, publisherId: int): nat
  {
    Count(t.books, (b: Book) => b.publisherId == Some(publisherId))
  }

  /** `Address ?? ""` and `Website ?? ""`: a missing value sorts as the empty text. */
  function PublisherOrderKey(t: Tables, o: PublisherOrder): Publisher -> Key
  {
    (p: Publisher) =>
      match o
      case ByName => [Str(p.publisherName)]
      case ByAddress => [Str(if p.address.Some? then p.address.value else "")]
      case ByWebsite => [Str(if p.website.Some? then p.website.value else "")]
      case ByBookCount => [IntAtom(BooksOf(t, p.publisherId))]
  }

  /** A missing address sorts with the empty address, ahead of every other address when ascending. */
  lemma MissingAddressFirst(t: Tables, p: Publisher, q: Publisher)
    requires p.address.None? && q.address.Some? && q.address.value != ""
    ensures Before(PublisherOrderKey(t, ByAddress), false, p, q)
  {
    var a := q.address.value;
    assert StrLt("", a);
    assert KeyLt([Str("")], [Str(a)]) by {
      assert AtomLt(Str(""), Str(a));
    }
  }

  // ---------------------------------------------------------------------------
  // LoadPublishers

  /** The bound query parameters and the properties `LoadPublishers` fills in. */
  class PublishersIndexPage {
    var searchTerm: Option<string>
    var sortBy: string
    var sortDirection: string
    var pageNumber: int
    var totalPages: int
    var totalPublishers: int
    var filteredPublishers: int
    var publishers: seq<Publisher>

    /** The page as bound from the query string, before loading. */
    constructor (searchTerm: Option<string>, sortBy: string, sortDirection: string, pageNumber: int)
      ensures this.searchTerm == searchTerm && this.sortBy == sortBy
      ensures this.sortDirection == sortDirection && this.pageNumber == pageNumber
      ensures totalPages == 0 && totalPublishers == 0 && filteredPublishers == 0 && publishers == []
    {
      this.searchTerm := searchTerm;
      this.sortBy := sortBy;
      this.sortDirection := sortDirection;
      this.pageNumber := pageNumber;
      totalPages, totalPublishers, filteredPublishers, publishers := 0, 0, 0, [];
    }

    /** The publishers of the current page in the selected order. */
    function Listed(t: Tables): seq<Publisher>
      reads this
    {
      PageOf(SortBy(MatchingPublishers(t, searchTerm), PublisherOrderKey(t, ParsePublisherOrder(sortBy)), DescendingOf(sortDirection)),
        pageNumber, PublishersPageSize)
    }

    /** `LoadPublishers`: counts, filters, sorts, clamps the page number and takes the page. */
    method LoadPublishers(t: Tables)
      modifies this
      ensures searchTerm == old(searchTerm) && sortBy == old(sortBy) && sortDirection == old(sortDirection)
      ensures totalPublishers == |t.publishers|
      ensures filteredPublishers == |MatchingPublishers(t, searchTerm)|
      ensures totalPages == CeilDiv(filteredPublishers, PublishersPageSize)
      ensures pageNumber == ClampPage(old(pageNumber), totalPages)
      ensures publishers == Listed(t)
    {
      var query := t.publishers;
      if Given(searchTerm) {
        query := Filter(query, PublisherSearch(ToLower(searchTerm.value)));
      }
      var filtered := |query|;
      query := SortBy(query, PublisherOrderKey(t, ParsePublisherOrder(sortBy)), DescendingOf(sortDirection));
      var pages := CeilDiv(filtered, PublishersPageSize);
      var page := pageNumber;
      if page < 1 {
        page := 1;
      }
      if page > pages && pages > 0 {
        page := pages;
      }
      Show(|t.publishers|, filtered, pages, page, PageOf(query, page, PublishersPageSize));
    }

    /** Sets the properties the view renders; the bound query parameters stay. */
    method Show(total: int, filtered: int, pages: int, page: int, listed: seq<Publisher>)
      modifies this
      ensures searchTerm == old(searchTerm) && sortBy == old(sortBy) && sortDirection == old(sortDirection)
      ensures totalPublishers == total && filteredPublishers == filtered && totalPages == pages
      ensures pageNumber == page && publishers == listed
    {
      totalPublishers, filteredPublishers, totalPages, pageNumber, publishers := total, filtered, pages, page, listed;
    }
  }

  /**
   * After loading, the page holds at most twelve publishers, each a
   * matching one, in the selected order; and it is never empty while some
   * publisher matches.
   */
  lemma ListedSpec(t: Tables, searchTerm: Option<string>, sortBy: string, sortDirection: string, page: int)
    ensures var matching := MatchingPublishers(t, searchTerm);
      var key := PublisherOrderKey(t, ParsePublisherOrder(sortBy));
      var p := ClampPage(page, CeilDiv(|matching|, PublishersPageSize));
      var listed := PageOf(SortBy(matching, key, DescendingOf(sortDirection)), p, PublishersPageSize);
      |listed| <= PublishersPageSize && (|matching| > 0 ==> |listed| > 0) &&
      Sorted(listed, key, DescendingOf(sortDirection)) &&
      forall q :: q in listed ==> q in matching
  {
    var matching := MatchingPublishers(t, searchTerm);
    var key := PublisherOrderKey(t, ParsePublisherOrder(sortBy));
    var sorted := SortBy(matching, key, DescendingOf(sortDirection));
    var p := ClampPage(page, CeilDiv(|matching|, PublishersPageSize));
    ClampedPageShows(sorted, page, PublishersPageSize);
    SortBySorted(matching, key, DescendingOf(sortDirection));
    PageSorted(sorted, key, DescendingOf(sortDirection), p, PublishersPageSize);
    SortByMembers(matching, key, DescendingOf(sortDirection));
  }
}
