// Paging shared by the admin list pages: the page count and the clamping
// of the requested page number that the users and publishers lists apply.
module AdminLists {
  import opened Seqs
  import opened Text

  /**
   * `if (PageNumber < 1) PageNumber = 1; if (PageNumber > TotalPages &&
   * TotalPages > 0) PageNumber = TotalPages;`
   */
  function ClampPage(page: int, totalPages: int): (r: int)
    ensures r >= 1
    ensures totalPages > 0 ==> r <= totalPages
    ensures 1 <= page && (totalPages <= 0 || page <= totalPages) ==> r == page
    ensures page < 1 ==> r == 1
  {
    var p := if page < 1 then 1 else page;
    if p > totalPages && totalPages > 0 then totalPages else p
  }

  /**
   * A clamped page of `size` rows holds at most `size` of them, and holds
   * at least one whenever there is a row at all.
   */
  lemma ClampedPageShows<T>(s: seq<T>, page: int, size: nat)
    requires size > 0
    ensures var p := ClampPage(page, CeilDiv(|s|, size));
      |PageOf(s, p, size)| <= size && (|s| > 0 ==> |PageOf(s, p, size)| > 0)
  {
    var p := ClampPage(page, CeilDiv(|s|, size));
    PageBounds(s, p, size);
    if |s| > 0 {
      CeilDivBounds(|s|, size);
      PageInRangeNonEmpty(s, p, size);
    }
  }

  /** `!string.IsNullOrEmpty(x)`: the filter is switched on. */
  predicate Given(x: Option<string>)
  {
    !IsNullOrEmpty(x)
  }

  /** `SortDirection.ToLower() == "desc"`. */
  predicate DescendingOf(direction: string)
  {
    ToLower(direction) == "desc"
  }
}
