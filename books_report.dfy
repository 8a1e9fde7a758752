// The book report of the administration area: the headline statistics of
// the books matching the report's optional filters, and the number of
// books in each price band.
module BooksReport {
  import opened Seqs
  import opened Text
  import opened Entities
  import opened Schema
  import BooksIndex

  // ---------------------------------------------------------------------------
  // Headline statistics

  /** The report's filters, each optional; an empty genre is no filter. */
  datatype ReportFilter = ReportFilter(genre: Option<string>, publisherId: Option<int>, authorId: Option<int>)

  function GenreIs(genre: Option<string>): Book -> bool
  {
    (b: Book) => b.genre == genre
  }

  function PublisherIs(publisherId: Option<int>): Book -> bool
  {
    (b: Book) => b.publisherId == publisherId
  }

  function AuthorIs(authorId: Option<int>): Book -> bool
  {
    (b: Book) => b.authorId == authorId
  }

  /** The three `Where` stages, each applied only when its filter is given. */
  function ReportPass(f: ReportFilter): Book -> bool
  {
    AndIf(AndIf(AndIf(Always(), !IsNullOrEmpty(f.genre), GenreIs(f.genre)),
                f.publisherId.Some?, PublisherIs(f.publisherId)),
          f.authorId.Some?, AuthorIs(f.authorId))
  }

  /** The books the statistics are computed over, in table order. */
  function ReportBooks(t: Tables, f: ReportFilter): seq<Book>
  {
    Filter(t.books, ReportPass(f))
  }

  predicate HasPrice(b: Book)
  {
    b.price.Some?
  }

  /** `AVG` ignores null prices: the number of priced books. */
  function PricedCount(books: seq<Book>): nat
  {
    Count(books, HasPrice)
  }

  /** `SUM` of the non-null prices. */
  function PriceTotal(books: seq<Book>): real
  {
    if books == [] then 0.0
    else RealOrZero(books[0].price) + PriceTotal(books[1..])
  }

  /** `AverageAsync(b => (decimal?)b.Price) ?? 0`: no priced book gives 0. */
  function AveragePrice(books: seq<Book>): real
  {
    if PricedCount(books) == 0 then 0.0 else PriceTotal(books) / (PricedCount(books) as real)
  }

  function ViewsOf(b: Book): int
  {
    OrZero(b.viewCount)
  }

  /** `SumAsync(b => (int?)b.ViewCount) ?? 0`: null view counts add nothing. */
  function TotalViews(books: seq<Book>): int
  {
    Sum(books, ViewsOf)
  }

  function BookIdList(books: seq<Book>): seq<int>
  {
    Map(books, BookKey)
  }

  function OnBookIn(ids: seq<int>): Review -> bool
  {
    (r: Review) => r.bookId in ids
  }

  /** `Reviews.Where(r => bookIds.Contains(r.BookId)).Count()`: replies included. */
  function ReviewsOfIds(reviews: seq<Review>, ids: seq<int>): nat
  {
    Count(reviews, OnBookIn(ids))
  }

  /** The page's filter properties and the statistics `LoadStatistics` sets. */
  class BooksReportPage {
    var genre: Option<string>
    var publisherId: Option<int>
    var authorId: Option<int>
    var totalBooks: int
    var averagePrice: real
    var totalViews: int
    var totalReviews: int
    var averageRating: real

    constructor (f: ReportFilter)
      ensures genre == f.genre && publisherId == f.publisherId && authorId == f.authorId
      ensures totalBooks == 0 && averagePrice == 0.0 && totalViews == 0
      ensures totalReviews == 0 && averageRating == 0.0
    {
      genre, publisherId, authorId := f.genre, f.publisherId, f.authorId;
      totalBooks, averagePrice, totalViews := 0, 0.0, 0;
      totalReviews, averageRating := 0, 0.0;
    }

    function Filters(): ReportFilter
      reads this
    {
      ReportFilter(genre, publisherId, authorId)
    }

    /**
     * `LoadStatistics`: narrows the book table by each given filter, then
     * sets the count, the average price, the total views and the number of
     * reviews of the books left; the average rating is always 0.
     */
    method LoadStatistics(t: Tables)
      modifies this
      ensures Filters() == old(Filters())
      ensures var q := ReportBooks(t, Filters());
        totalBooks == |q| && averagePrice == AveragePrice(q) && totalViews == TotalViews(q) &&
        totalReviews == ReviewsOfIds(t.reviews, BookIdList(q)) && averageRating == 0.0
    {
      var f := Filters();
      var query := t.books;
      ghost var r: Book -> bool := Always();
      FilterAll(t.books, r);
      query := BooksIndex.Narrow(t.books, r, query, !IsNullOrEmpty(genre), GenreIs(genre));
      r := AndIf(r, !IsNullOrEmpty(genre), GenreIs(genre));
      query := BooksIndex.Narrow(t.books, r, query, publisherId.Some?, PublisherIs(publisherId));
      r := AndIf(r, publisherId.Some?, PublisherIs(publisherId));
      query := BooksIndex.Narrow(t.books, r, query, authorId.Some?, AuthorIs(authorId));
      assert query == ReportBooks(t, f);
      var bookIds := BookIdList(query);
      Show(|query|, AveragePrice(query), TotalViews(query), ReviewsOfIds(t.reviews, bookIds));
    }

    method Show(books: int, price: real, views: int, reviews: int)
      modifies this
      ensures Filters() == old(Filters())
      ensures totalBooks == books && averagePrice == price && totalViews == views
      ensures totalReviews == reviews && averageRating == 0.0
    {
      totalBooks := books;
      averagePrice := price;
      totalViews := views;
      totalReviews := reviews;
      averageRating := 0.0;
    }
  }

  /**
   * A book is reported exactly when it is in the table and matches every
   * filter that is given: the genre when it is non-empty, the publisher
   * and the author when they have a value.
   */
  lemma ReportBooksSpec(t: Tables, f: ReportFilter)
    ensures forall b :: b in ReportBooks(t, f) <==>
      (b in t.books &&
       (!IsNullOrEmpty(f.genre) ==> b.genre == f.genre) &&
       (f.publisherId.Some? ==> b.publisherId == f.publisherId) &&
       (f.authorId.Some? ==> b.authorId == f.authorId))
  {
  }

  /** Without filters the statistics cover the whole table. */
  lemma UnfilteredReport(t: Tables)
    requires ReviewsRefsOk(t.reviews, UserIds(t.users), BookIds(t.books))
    ensures ReportBooks(t, ReportFilter(None, None, None)) == t.books
    ensures ReviewsOfIds(t.reviews, BookIdList(t.books)) == |t.reviews|
  {
    FilterAll(t.books, ReportPass(ReportFilter(None, None, None)));
    var ids := BookIdList(t.books);
    forall r | r in t.reviews
      ensures OnBookIn(ids)(r)
    {
      assert r.bookId in BookIds(t.books);
      var i :| 0 <= i < |t.books| && t.books[i].bookId == r.bookId;
      assert ids[i] == r.bookId;
    }
    CountAllOf(t.reviews, OnBookIn(ids));
  }

  lemma {:induction false} CountAllOf<T>(s: seq<T>, p: T -> bool)
    requires forall x :: x in s ==> p(x)
    ensures Count(s, p) == |s|
  {
    if s != [] {
      assert forall x :: x in s[1..] ==> x in s;
      CountAllOf(s[1..], p);
    }
  }

  lemma MulStep(c: real, n: real)
    ensures c * (n + 1.0) == c * n + c
  {
  }

  /** The price total is at least the lowest price times the number of priced books. */
  lemma {:induction false} PriceTotalAtLeast(books: seq<Book>, lo: real)
    requires forall i :: 0 <= i < |books| && books[i].price.Some? ==> lo <= books[i].price.value
    ensures lo * (PricedCount(books) as real) <= PriceTotal(books)
  {
    if books != [] {
      var rest := books[1..];
      assert forall i :: 0 <= i < |rest| ==> rest[i] == books[i + 1];
      PriceTotalAtLeast(rest, lo);
      var n := PricedCount(rest) as real;
      if books[0].price.Some? {
        assert PricedCount(books) as real == n + 1.0;
        MulStep(lo, n);
      } else {
        assert PricedCount(books) as real == n;
      }
    }
  }

  /** The price total is at most the highest price times the number of priced books. */
  lemma {:induction false} PriceTotalAtMost(books: seq<Book>, hi: real)
    requires forall i :: 0 <= i < |books| && books[i].price.Some? ==> books[i].price.value <= hi
    ensures PriceTotal(books) <= hi * (PricedCount(books) as real)
  {
    if books != [] {
      var rest := books[1..];
      assert forall i :: 0 <= i < |rest| ==> rest[i] == books[i + 1];
      PriceTotalAtMost(rest, hi);
      var n := PricedCount(rest) as real;
      if books[0].price.Some? {
        assert PricedCount(books) as real == n + 1.0;
        MulStep(hi, n);
      } else {
        assert PricedCount(books) as real == n;
      }
    }
  }

  /** A total between `lo` and `hi` times a positive count, divided by that count, lies between `lo` and `hi`. */
  lemma DivBounds(total: real, n: real, lo: real, hi: real)
    requires n > 0.0 && lo * n <= total <= hi * n
    ensures lo <= total / n <= hi
  {
    var a := total / n;
    assert a * n == total;
    assert (a - lo) * n == total - lo * n;
    assert (hi - a) * n == hi * n - total;
  }

  /**
   * The average price is 0 when no book has a price, and otherwise lies
   * between the lowest and the highest price of the priced books.
   */
  lemma AveragePriceBounds(books: seq<Book>, lo: real, hi: real)
    requires forall i :: 0 <= i < |books| && books[i].price.Some? ==> lo <= books[i].price.value <= hi
    ensures PricedCount(books) == 0 ==> AveragePrice(books) == 0.0
    ensures PricedCount(books) > 0 ==> lo <= AveragePrice(books) <= hi
  {
    if PricedCount(books) > 0 {
      PriceTotalAtLeast(books, lo);
      PriceTotalAtMost(books, hi);
      DivBounds(PriceTotal(books), PricedCount(books) as real, lo, hi);
    }
  }

  function OnBook(bookId: int): Review -> bool
  {
    (r: Review) => r.bookId == bookId
  }

  /** A book's review count: every review of it, replies included. */
  function ReviewsOfBook(reviews: seq<Review>): Book -> int
  {
    (b: Book) => Count(reviews, OnBook(b.bookId))
  }

  /**
   * Over books with distinct ids, the reported review count is the sum of
   * the books' own review counts.
   */
  lemma {:induction false} ReviewsPerBook(reviews: seq<Review>, books: seq<Book>)
    requires KeysDistinct(books, BookKey)
    ensures ReviewsOfIds(reviews, BookIdList(books)) == Sum(books, ReviewsOfBook(reviews))
  {
    if books == [] {
      CountZero(reviews, OnBookIn([]));
    } else {
      var rest := books[1..];
      assert KeysDistinct(rest, BookKey) by {
        assert forall i :: 0 <= i < |rest| ==> rest[i] == books[i + 1];
      }
      ReviewsPerBook(reviews, rest);
      var ids := BookIdList(books);
      assert ids == [books[0].bookId] + BookIdList(rest);
      assert books[0].bookId !in BookIdList(rest) by {
        forall i | 0 <= i < |rest|
          ensures BookIdList(rest)[i] != books[0].bookId
        {
          assert rest[i] == books[i + 1];
        }
      }
      CountOr(reviews, OnBook(books[0].bookId), OnBookIn(BookIdList(rest)), OnBookIn(ids));
    }
  }

  function TopLevelOn(ids: seq<int>): Review -> bool
  {
    (r: Review) => r.bookId in ids && r.parentReviewId.None?
  }

  function ReplyOn(ids: seq<int>): Review -> bool
  {
    (r: Review) => r.bookId in ids && r.parentReviewId.Some?
  }

  /** The reported review count is the top-level reviews of the books plus the replies to them. */
  lemma ReviewsCountReplies(reviews: seq<Review>, ids: seq<int>)
    ensures ReviewsOfIds(reviews, ids) == Count(reviews, TopLevelOn(ids)) + Count(reviews, ReplyOn(ids))
  {
    CountOr(reviews, TopLevelOn(ids), ReplyOn(ids), OnBookIn(ids));
  }

  // ---------------------------------------------------------------------------
  // Price bands

  /** A band of prices, `min` included and `max` excluded. */
  datatype PriceRange = PriceRange(name: string, min: real, max: real)

  /** `decimal.MaxValue`. */
  const DecimalMax: real := 79228162514264337593543950335.0

  /**
   * The five bands in display order. The last label is the UTF-8 text of
   * "Trên 1M" read back as Latin-1, as the source file holds it.
   */
  const PriceRanges: seq<PriceRange> := [
    PriceRange("0-100k", 0.0, 100000.0),
    PriceRange("100k-300k", 100000.0, 300000.0),
    PriceRange("300k-500k", 300000.0, 500000.0),
    PriceRange("500k-1M", 500000.0, 1000000.0),
    PriceRange("Tr\U{00C3}\U{00AA}n 1M", 1000000.0, DecimalMax)
  ]

  /** `b.Price >= min && b.Price < max`: a null price is in no band. */
  function InRange(min: real, max: real): Book -> bool
  {
    (b: Book) => b.price.Some? && min <= b.price.value < max
  }

  datatype PriceStat = PriceStat(range: string, count: nat)

  function StatOf(books: seq<Book>): PriceRange -> PriceStat
  {
    (r: PriceRange) => PriceStat(r.name, Count(books, InRange(r.min, r.max)))
  }

  predicate HasBooks(s: PriceStat)
  {
    s.count > 0
  }

  function StatCount(s: PriceStat): int
  {
    s.count
  }

  /** `LoadBooksByPriceRange`: every band with its number of books, bands without books dropped. */
  function BooksByPriceRange(books: seq<Book>): (r: seq<PriceStat>)
    ensures |r| <= |PriceRanges| && forall k :: 0 <= k < |r| ==> r[k].count > 0
  {
    BandsListed(books, PriceRanges);
    BandStats(books, PriceRanges)
  }

  /** Each band of `ranges` with its number of books, bands without books dropped. */
  function BandStats(books: seq<Book>, ranges: seq<PriceRange>): seq<PriceStat>
  {
    Filter(Map(ranges, StatOf(books)), HasBooks)
  }

  predicate InBand(p: real, r: PriceRange)
  {
    r.min <= p < r.max
  }

  /**
   * The bands are consecutive and half-open: a price lies in some band
   * exactly when it is in [0, decimal.MaxValue), and then in only one.
   */
  lemma BandsPartition(p: real)
    ensures (exists k :: 0 <= k < |PriceRanges| && InBand(p, PriceRanges[k])) <==> 0.0 <= p < DecimalMax
    ensures forall j, k ::
      (0 <= j < |PriceRanges| && 0 <= k < |PriceRanges| &&
       InBand(p, PriceRanges[j]) && InBand(p, PriceRanges[k])) ==> j == k
  {
    var rs := PriceRanges;
    if 0.0 <= p < DecimalMax {
      if p < 100000.0 {
        assert InBand(p, rs[0]);
      } else if p < 300000.0 {
        assert InBand(p, rs[1]);
      } else if p < 500000.0 {
        assert InBand(p, rs[2]);
      } else if p < 1000000.0 {
        assert InBand(p, rs[3]);
      } else {
        assert InBand(p, rs[4]);
      }
    }
  }

  /** Books in two adjacent intervals are the books in their union. */
  lemma CountAdjacent(books: seq<Book>, lo: real, mid: real, hi: real)
    requires lo <= mid <= hi
    ensures Count(books, InRange(lo, mid)) + Count(books, InRange(mid, hi)) == Count(books, InRange(lo, hi))
  {
    CountOr(books, InRange(lo, mid), InRange(mid, hi), InRange(lo, hi));
  }

  /**
   * Every listed band has at least one book, and a band is listed, with
   * its book count, exactly when some book's price lies in it.
   */
  lemma BandsListed(books: seq<Book>, ranges: seq<PriceRange>)
    ensures var r := BandStats(books, ranges);
      |r| <= |ranges| && forall k :: 0 <= k < |r| ==> r[k].count > 0
    ensures var r := BandStats(books, ranges);
      forall k :: 0 <= k < |ranges| ==>
        (StatOf(books)(ranges[k]) in r <==>
         exists b :: b in books && b.price.Some? && InBand(b.price.value, ranges[k]))
  {
    var all := Map(ranges, StatOf(books));
    var r := BandStats(books, ranges);
    forall k | 0 <= k < |r|
      ensures r[k].count > 0
    {
      assert r[k] in r;
    }
    forall k | 0 <= k < |ranges|
      ensures StatOf(books)(ranges[k]) in r <==>
        exists b :: b in books && b.price.Some? && InBand(b.price.value, ranges[k])
    {
      var rk := ranges[k];
      assert all[k] == StatOf(books)(rk);
      CountZero(books, InRange(rk.min, rk.max));
    }
  }

  /** `x` is the entry of an earlier band of `ranges` than `y`. */
  predicate EarlierBand(books: seq<Book>, ranges: seq<PriceRange>, x: PriceStat, y: PriceStat)
  {
    exists i, j :: 0 <= i < j < |ranges| && x == StatOf(books)(ranges[i]) && y == StatOf(books)(ranges[j])
  }

  function EarlierBandOf(books: seq<Book>, ranges: seq<PriceRange>): (PriceStat, PriceStat) -> bool
  {
    (x: PriceStat, y: PriceStat) => EarlierBand(books, ranges, x, y)
  }

  /** The listed bands keep the order of `ranges`. */
  lemma BandsInOrder(books: seq<Book>, ranges: seq<PriceRange>)
    ensures forall a, b :: 0 <= a < b < |BandStats(books, ranges)| ==>
      EarlierBand(books, ranges, BandStats(books, ranges)[a], BandStats(books, ranges)[b])
  {
    var all := Map(ranges, StatOf(books));
    var rel := EarlierBandOf(books, ranges);
    forall i, j | 0 <= i < j < |all|
      ensures rel(all[i], all[j])
    {
      assert all[i] == StatOf(books)(ranges[i]) && all[j] == StatOf(books)(ranges[j]);
    }
    FilterPairwise(all, HasBooks, rel);
  }

  /** Each band ends where the next one starts, and none is reversed. */
  predicate Consecutive(ranges: seq<PriceRange>)
  {
    (forall k :: 0 <= k < |ranges| ==> ranges[k].min <= ranges[k].max) &&
    forall k :: 0 <= k < |ranges| - 1 ==> ranges[k].max == ranges[k + 1].min
  }

  /** Over consecutive bands, the band counts add up to the count over the span of all the bands. */
  lemma {:induction false} ChainTotal(books: seq<Book>, ranges: seq<PriceRange>)
    requires |ranges| > 0 && Consecutive(ranges)
    ensures ranges[0].min <= ranges[|ranges| - 1].max
    ensures Sum(Map(ranges, StatOf(books)), StatCount) ==
      Count(books, InRange(ranges[0].min, ranges[|ranges| - 1].max))
  {
    var all := Map(ranges, StatOf(books));
    assert all[0] == StatOf(books)(ranges[0]);
    if |ranges| == 1 {
      assert all[1..] == [];
    } else {
      var rest := ranges[1..];
      assert Consecutive(rest) by {
        assert forall k :: 0 <= k < |rest| ==> rest[k] == ranges[k + 1];
      }
      ChainTotal(books, rest);
      assert all[1..] == Map(rest, StatOf(books));
      CountAdjacent(books, ranges[0].min, ranges[0].max, ranges[|ranges| - 1].max);
    }
  }

  /** The report's bands run from 0 to decimal.MaxValue without gap or overlap. */
  lemma PriceRangesConsecutive()
    ensures |PriceRanges| == 5 && Consecutive(PriceRanges)
    ensures PriceRanges[0].min == 0.0 && PriceRanges[4].max == DecimalMax
  {
  }

  /** The listed counts add up to the number of books whose price is in [0, decimal.MaxValue). */
  lemma BandsTotal(books: seq<Book>)
    ensures Sum(BooksByPriceRange(books), StatCount) == Count(books, InRange(0.0, DecimalMax))
  {
    var all := Map(PriceRanges, StatOf(books));
    assert BooksByPriceRange(books) == Filter(all, HasBooks);
    assert forall i :: 0 <= i < |all| && !HasBooks(all[i]) ==> StatCount(all[i]) == 0;
    SumFilterZeros(all, HasBooks, StatCount);
    PriceRangesConsecutive();
    ChainTotal(books, PriceRanges);
  }
}
