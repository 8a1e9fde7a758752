// Sequence operations shared by the query pipelines: counting, filtering,
// summing, paging (LINQ Skip/Take) and page arithmetic.
module Seqs {

  datatype Option<T> = None | Some(value: T)

  /** Index of the first element satisfying `p` (LINQ `FirstOrDefault`), if any. */
  function FirstIndex<T>(s: seq<T>, p: T -> bool): (r: Option<nat>)
    ensures r.Some? ==> r.value < |s| && p(s[r.value]) && forall k :: 0 <= k < r.value ==> !p(s[k])
    ensures r.None? ==> forall k :: 0 <= k < |s| ==> !p(s[k])
  {
    if s == [] then None
    else if p(s[0]) then Some(0)
    else
      var r := FirstIndex(s[1..], p);
      if r.Some? then Some(r.value + 1) else None
  }

  /** Number of elements of `s` satisfying `p` (LINQ `Count(p)`). */
  function Count<T>(s: seq<T>, p: T -> bool): (n: nat)
    ensures n <= |s|
  {
    if s == [] then 0 else (if p(s[0]) then 1 else 0) + Count(s[1..], p)
  }

  /** Elements of `s` satisfying `p`, in their original order (LINQ `Where`). */
  function Filter<T(!new)>(s: seq<T>, p: T -> bool): (r: seq<T>)
    ensures |r| == Count(s, p)
    ensures forall x :: x in r <==> x in s && p(x)
    ensures multiset(r) <= multiset(s)
  {
    if s == [] then []
    else
      assert s == [s[0]] + s[1..];
      (if p(s[0]) then [s[0]] else []) + Filter(s[1..], p)
  }

  /** The keys of the rows of `s`. */
  function KeySet<T(==)>(s: seq<T>, key: T -> int): set<int>
  {
    set x | x in s :: key(x)
  }

  /** Index of the first row whose key is `id` (`FindAsync`). */
  function FindKey<T(==)>(s: seq<T>, key: T -> int, id: int): (r: Option<nat>)
    ensures r.Some? ==> r.value < |s| && key(s[r.value]) == id && forall k :: 0 <= k < r.value ==> key(s[k]) != id
    ensures r.Some? <==> id in KeySet(s, key)
  {
    FirstIndex(s, x => key(x) == id)
  }

  /** Overwriting a row without changing its key leaves every lookup by key where it was. */
  lemma FindKeyUpdate<T>(s: seq<T>, i: nat, x: T, key: T -> int, id: int)
    requires i < |s| && key(x) == key(s[i])
    ensures FindKey(s[i := x], key, id) == FindKey(s, key, id)
  {
    KeySetUpdate(s, i, x, key);
    assert forall k :: 0 <= k < |s| ==> key(s[i := x][k]) == key(s[k]);
  }

  /** `s` without its `i`-th element (`DbSet.Remove` of one row). */
  function RemoveAt<T>(s: seq<T>, i: nat): (r: seq<T>)
    requires i < |s|
    ensures |r| == |s| - 1
    ensures forall k :: 0 <= k < i ==> r[k] == s[k]
    ensures forall k :: i <= k < |r| ==> r[k] == s[k + 1]
    ensures forall x :: x in r ==> x in s
    ensures multiset(r) == multiset(s) - multiset{s[i]}
  {
    assert s == s[..i] + [s[i]] + s[i+1..];
    s[..i] + s[i+1..]
  }

  /** Sum of `f` over `s` (LINQ `Sum`). */
  function Sum<T>(s: seq<T>, f: T -> int): int
  {
    if s == [] then 0 else f(s[0]) + Sum(s[1..], f)
  }

  /** Image of `s` under `f` (LINQ `Select`). */
  function Map<T, U>(s: seq<T>, f: T -> U): (r: seq<U>)
    ensures |r| == |s|
    ensures forall i :: 0 <= i < |s| ==> r[i] == f(s[i])
  {
    if s == [] then [] else [f(s[0])] + Map(s[1..], f)
  }

  /** LINQ `Any(p)`. */
  predicate Any<T>(s: seq<T>, p: T -> bool)
  {
    exists i :: 0 <= i < |s| && p(s[i])
  }

  /** LINQ `Skip(n)`: a non-positive count skips nothing. */
  function Skip<T>(s: seq<T>, n: int): (r: seq<T>)
    ensures n <= 0 ==> r == s
    ensures 0 <= n <= |s| ==> r == s[n..]
    ensures n >= |s| ==> r == []
  {
    if n <= 0 then s else if n >= |s| then [] else s[n..]
  }

  /** LINQ `Take(n)`: a non-positive count takes nothing. */
  function Take<T>(s: seq<T>, n: int): (r: seq<T>)
    ensures n <= 0 ==> r == []
    ensures 0 <= n <= |s| ==> r == s[..n]
    ensures n >= |s| ==> r == s
  {
    if n <= 0 then [] else if n >= |s| then s else s[..n]
  }

  /**
   * The number of rows before page `page` (counted from 1) of `size` rows,
   * `(page - 1) * size`, added up one page at a time so that queries about
   * paging need no multiplication (`OffsetIsProduct` relates the two).
   */
  function Offset(page: int, size: int): int
    decreases if page >= 1 then page - 1 else 1 - page
  {
    if page == 1 then 0
    else if page > 1 then Offset(page - 1, size) + size
    else Offset(page + 1, size) - size
  }

  lemma {:induction false} OffsetIsProduct(page: int, size: int)
    ensures Offset(page, size) == (page - 1) * size
    decreases if page >= 1 then page - 1 else 1 - page
  {
    if page > 1 {
      OffsetIsProduct(page - 1, size);
    } else if page < 1 {
      OffsetIsProduct(page + 1, size);
    }
  }

  /** The `page`-th window of `size` elements: `Skip((page - 1) * size).Take(size)`. */
  function PageOf<T>(s: seq<T>, page: int, size: int): seq<T>
  {
    Take(Skip(s, Offset(page, size)), size)
  }

  /**
   * `Skip((page - 1) * size).Take(size)` run by PostgreSQL, which rejects a
   * negative OFFSET or LIMIT: no rows come back then (the query throws).
   */
  function DbPage<T>(s: seq<T>, page: int, size: int): (r: Option<seq<T>>)
    ensures r.Some? <==> Offset(page, size) >= 0 && size >= 0
  {
    if Offset(page, size) < 0 || size < 0 then None else Some(PageOf(s, page, size))
  }

  /** `Take(n)` run by PostgreSQL: a negative LIMIT is rejected. */
  function DbTake<T>(s: seq<T>, n: int): (r: Option<seq<T>>)
    ensures r.Some? <==> n >= 0
  {
    if n < 0 then None else Some(Take(s, n))
  }

  /** No element occurs twice. */
  predicate NoDup<T(==)>(s: seq<T>)
  {
    forall i, j :: 0 <= i < j < |s| ==> s[i] != s[j]
  }

  /** The first occurrence of every element, in order (LINQ `Distinct`). */
  function Distinct<T(==,!new)>(s: seq<T>): (r: seq<T>)
    ensures forall x :: x in r <==> x in s
    ensures NoDup(r)
    decreases |s|
  {
    if s == [] then []
    else
      var init := s[..|s| - 1];
      var last := s[|s| - 1];
      assert s == init + [last];
      var d := Distinct(init);
      if last in init then d else d + [last]
  }

  /** No two elements share a key. */
  predicate KeysDistinct<T>(s: seq<T>, key: T -> int)
  {
    forall i, j :: 0 <= i < j < |s| ==> key(s[i]) != key(s[j])
  }

  /** `(int)Math.Ceiling((double)n / size)` for a positive size. */
  function CeilDiv(n: nat, size: nat): (r: nat)
    requires size > 0
  {
    (n + size - 1) / size
  }

  // ---------------------------------------------------------------------------
  // Lemmas

  lemma {:induction false} CountAppend<T>(a: seq<T>, b: seq<T>, p: T -> bool)
    ensures Count(a + b, p) == Count(a, p) + Count(b, p)
  {
    if a == [] {
      assert a + b == b;
    } else {
      assert (a + b)[1..] == a[1..] + b;
      CountAppend(a[1..], b, p);
    }
  }

  lemma {:induction false} FilterAppend<T(!new)>(a: seq<T>, b: seq<T>, p: T -> bool)
    ensures Filter(a + b, p) == Filter(a, p) + Filter(b, p)
  {
    if a == [] {
      assert a + b == b;
    } else {
      assert (a + b)[1..] == a[1..] + b;
      FilterAppend(a[1..], b, p);
    }
  }

  lemma {:induction false} SumAppend<T>(a: seq<T>, b: seq<T>, f: T -> int)
    ensures Sum(a + b, f) == Sum(a, f) + Sum(b, f)
  {
    if a == [] {
      assert a + b == b;
    } else {
      assert (a + b)[1..] == a[1..] + b;
      SumAppend(a[1..], b, f);
    }
  }

  /** Counting one predicate splits into counting it with and without a second one. */
  lemma {:induction false} CountSplit<T>(s: seq<T>, p: T -> bool, q: T -> bool)
    ensures Count(s, p) == Count(s, x => p(x) && q(x)) + Count(s, x => p(x) && !q(x))
  {
    if s != [] {
      CountSplit(s[1..], p, q);
    }
  }

  /** Predicates that agree on every element count the same. */
  lemma {:induction false} CountCongruent<T(!new)>(s: seq<T>, p: T -> bool, q: T -> bool)
    requires forall x :: x in s ==> (p(x) <==> q(x))
    ensures Count(s, p) == Count(s, q)
  {
    if s != [] {
      assert forall x :: x in s[1..] ==> x in s;
      CountCongruent(s[1..], p, q);
    }
  }

  /** Two `Where` calls in a row select what one `Where` on a predicate equivalent to their conjunction selects. */
  lemma {:induction false} FilterFilterAs<T(!new)>(s: seq<T>, p: T -> bool, q: T -> bool, r: T -> bool)
    requires forall x :: x in s ==> (r(x) <==> p(x) && q(x))
    ensures Filter(Filter(s, p), q) == Filter(s, r)
  {
    if s != [] {
      assert forall x :: x in s[1..] ==> x in s;
      var rest := Filter(s[1..], p);
      FilterFilterAs(s[1..], p, q, r);
      assert Filter(s, r) == (if r(s[0]) then [s[0]] else []) + Filter(s[1..], r);
      if p(s[0]) {
        assert Filter(s, p) == [s[0]] + rest;
        FilterAppend([s[0]], rest, q);
        assert [s[0]][1..] == [];
        assert Filter([s[0]], q) == (if q(s[0]) then [s[0]] else []) + Filter([], q);
      } else {
        assert Filter(s, p) == rest;
      }
    }
  }

  /** A `Where` that every element passes changes nothing. */
  lemma {:induction false} FilterAll<T(!new)>(s: seq<T>, p: T -> bool)
    requires forall x :: x in s ==> p(x)
    ensures Filter(s, p) == s
  {
    if s != [] {
      assert forall x :: x in s[1..] ==> x in s;
      FilterAll(s[1..], p);
    }
  }

  /** Predicates that agree on every element filter the same. */
  lemma {:induction false} FilterCongruent<T(!new)>(s: seq<T>, p: T -> bool, q: T -> bool)
    requires forall x :: x in s ==> (p(x) <==> q(x))
    ensures Filter(s, p) == Filter(s, q)
  {
    if s != [] {
      assert forall x :: x in s[1..] ==> x in s;
      FilterCongruent(s[1..], p, q);
    }
  }

  lemma {:induction false} CountZero<T(!new)>(s: seq<T>, p: T -> bool)
    ensures Count(s, p) == 0 <==> forall x :: x in s ==> !p(x)
  {
    if s != [] {
      CountZero(s[1..], p);
      assert forall x :: x in s ==> x == s[0] || x in s[1..];
    }
  }

  lemma CountPositive<T(!new)>(s: seq<T>, p: T -> bool)
    ensures Count(s, p) > 0 <==> Any(s, p)
  {
    CountZero(s, p);
    if Any(s, p) {
      var i :| 0 <= i < |s| && p(s[i]);
      assert s[i] in s;
    }
  }

  /** Replacing one element changes a count only by that element's contribution. */
  lemma CountUpdate<T>(s: seq<T>, i: nat, x: T, p: T -> bool)
    requires i < |s|
    ensures Count(s[i := x], p) == Count(s, p) - (if p(s[i]) then 1 else 0) + (if p(x) then 1 else 0)
  {
    assert s == s[..i] + [s[i]] + s[i+1..];
    assert s[i := x] == s[..i] + [x] + s[i+1..];
    CountAppend(s[..i] + [s[i]], s[i+1..], p);
    CountAppend(s[..i], [s[i]], p);
    CountAppend(s[..i] + [x], s[i+1..], p);
    CountAppend(s[..i], [x], p);
  }

  /** Removing one element changes a count only by that element's contribution. */
  lemma CountRemove<T>(s: seq<T>, i: nat, p: T -> bool)
    requires i < |s|
    ensures Count(RemoveAt(s, i), p) == Count(s, p) - (if p(s[i]) then 1 else 0)
  {
    var a, b := s[..i], s[i+1..];
    assert RemoveAt(s, i) == a + b;
    CountAppend(a, b, p);
    assert s == (a + [s[i]]) + b;
    CountAppend(a + [s[i]], b, p);
    CountAppend(a, [s[i]], p);
    assert Count([s[i]], p) == (if p(s[i]) then 1 else 0);
  }

  /** A predicate that holds at exactly one position is counted once. */
  lemma CountExactlyOne<T>(s: seq<T>, p: T -> bool, k: nat)
    requires k < |s| && p(s[k])
    requires forall j :: 0 <= j < |s| && j != k ==> !p(s[j])
    ensures Count(s, p) == 1
  {
    var a, b := s[..k], s[k+1..];
    assert s == a + [s[k]] + b;
    CountAppend(a + [s[k]], b, p);
    CountAppend(a, [s[k]], p);
    CountZeroIndex(a, p);
    forall j | 0 <= j < |b|
      ensures !p(b[j])
    {
      assert b[j] == s[k + 1 + j];
    }
    CountZeroIndex(b, p);
  }

  lemma {:induction false} CountZeroIndex<T>(s: seq<T>, p: T -> bool)
    requires forall j :: 0 <= j < |s| ==> !p(s[j])
    ensures Count(s, p) == 0
  {
    if s != [] {
      assert forall j :: 0 <= j < |s[1..]| ==> s[1..][j] == s[j + 1];
      CountZeroIndex(s[1..], p);
    }
  }

  lemma CountAppendOne<T>(s: seq<T>, x: T, p: T -> bool)
    ensures Count(s + [x], p) == Count(s, p) + (if p(x) then 1 else 0)
  {
    CountAppend(s, [x], p);
  }

  lemma KeySetUpdate<T>(s: seq<T>, i: nat, x: T, key: T -> int)
    requires i < |s| && key(x) == key(s[i])
    ensures KeySet(s[i := x], key) == KeySet(s, key)
  {
    forall k | k in KeySet(s, key)
      ensures k in KeySet(s[i := x], key)
    {
      var y :| y in s && key(y) == k;
      var j :| 0 <= j < |s| && s[j] == y;
      if j == i {
        assert s[i := x][i] == x;
      } else {
        assert s[i := x][j] == y;
      }
    }
    forall k | k in KeySet(s[i := x], key)
      ensures k in KeySet(s, key)
    {
      var y :| y in s[i := x] && key(y) == k;
      var j :| 0 <= j < |s| && s[i := x][j] == y;
      if j == i {
        assert s[i] in s;
      } else {
        assert s[j] == y;
      }
    }
  }

  lemma KeySetAppend<T>(s: seq<T>, x: T, key: T -> int)
    ensures KeySet(s + [x], key) == KeySet(s, key) + {key(x)}
  {
    assert forall y :: y in s + [x] <==> y in s || y == x;
  }

  /** Removing the one row with a key removes exactly that key. */
  lemma KeySetRemove<T>(s: seq<T>, i: nat, key: T -> int)
    requires i < |s|
    requires forall j :: 0 <= j < |s| && j != i ==> key(s[j]) != key(s[i])
    ensures KeySet(RemoveAt(s, i), key) == KeySet(s, key) - {key(s[i])}
  {
    var r := RemoveAt(s, i);
    assert forall y :: y in r ==> y in s && key(y) != key(s[i]) by {
      forall y | y in r
        ensures y in s && key(y) != key(s[i])
      {
        var j :| 0 <= j < |r| && r[j] == y;
        if j < i {
          assert s[j] == y;
        } else {
          assert s[j + 1] == y;
        }
      }
    }
    forall k | k in KeySet(s, key) && k != key(s[i])
      ensures k in KeySet(r, key)
    {
      var y :| y in s && key(y) == k;
      var j :| 0 <= j < |s| && s[j] == y;
      if j < i {
        assert r[j] == y;
      } else {
        assert j != i;
        assert r[j - 1] == y;
      }
    }
  }

  /** An answered database page is the LINQ page: at most `size` elements, none past the end. */
  lemma DbPageSpec<T>(s: seq<T>, page: int, size: int)
    ensures var r := DbPage(s, page, size);
      r.Some? ==>
        r.value == PageOf(s, page, size) && |r.value| <= size && |r.value| <= |s| &&
        (Offset(page, size) >= |s| ==> r.value == [])
  {
  }

  /** A page never holds more than `size` elements, nor more than the whole list. */
  lemma PageBounds<T>(s: seq<T>, page: int, size: int)
    ensures |PageOf(s, page, size)| <= |s|
    ensures size >= 0 ==> |PageOf(s, page, size)| <= size
  {
  }

  /** A page is the contiguous run of the list starting at its offset. */
  lemma PageIsSlice<T>(s: seq<T>, page: int, size: int)
    requires page >= 1 && size >= 0
    ensures Offset(page, size) >= 0
    ensures var off := Offset(page, size);
      off <= |s| ==> PageOf(s, page, size) == s[off..if off + size <= |s| then off + size else |s|]
  {
    OffsetIsProduct(page, size);
  }

  /**
   * Rows `(page - 1) * size` up to `page * size` of `s`, cut off at its end:
   * the page written out with the product, as the handlers compute the offset.
   */
  function Window<T>(s: seq<T>, page: int, size: int): seq<T>
    requires page >= 1 && size >= 0
  {
    var off := (page - 1) * size;
    if off >= |s| then [] else s[off..if off + size <= |s| then off + size else |s|]
  }

  /**
   * From page 1 on, with a size that is not negative, the database answers
   * with exactly that window, and the window has a row whenever its offset
   * lies before the end of the list.
   */
  lemma DbPageWindow<T>(s: seq<T>, page: int, size: int)
    requires page >= 1 && size >= 0
    ensures DbPage(s, page, size) == Some(Window(s, page, size))
    ensures size > 0 && (page - 1) * size < |s| ==> |Window(s, page, size)| > 0
  {
    OffsetIsProduct(page, size);
    var off := Offset(page, size);
    assert off >= 0 by {
      MulMono(0, page - 1, size);
    }
    if off < |s| {
      var rest := Skip(s, off);
      assert rest == s[off..];
      if off + size <= |s| {
        assert Take(rest, size) == rest[..size] == s[off..off + size];
      } else {
        assert Take(rest, size) == rest;
        assert Window(s, page, size) == s[off..|s|] == rest;
      }
    }
  }

  /** Every element of a page is an element of the list. */
  lemma PageMembers<T>(s: seq<T>, page: int, size: int)
    ensures forall x :: x in PageOf(s, page, size) ==> x in s
  {
    var off := Offset(page, size);
    var skipped := Skip(s, off);
    assert forall x :: x in skipped ==> x in s;
    assert forall x :: x in Take(skipped, size) ==> x in skipped;
  }

  /** `CeilDiv(n, size)` is the least number of pages of `size` that hold `n` elements. */
  lemma CeilDivBounds(n: nat, size: nat)
    requires size > 0
    ensures CeilDiv(n, size) * size >= n
    ensures n > 0 ==> (CeilDiv(n, size) - 1) * size < n
    ensures n > 0 <==> CeilDiv(n, size) > 0
  {
    var q := CeilDiv(n, size);
    var r := (n + size - 1) % size;
    assert n + size - 1 == q * size + r;
  }

  /** Every page from 1 to the page count shows at least one element. */
  lemma PageInRangeNonEmpty<T>(s: seq<T>, page: int, size: nat)
    requires size > 0
    requires 1 <= page <= CeilDiv(|s|, size)
    ensures |PageOf(s, page, size)| > 0
  {
    CeilDivBounds(|s|, size);
    OffsetIsProduct(page, size);
    assert (page - 1) * size <= (CeilDiv(|s|, size) - 1) * size by {
      MulMono(page - 1, CeilDiv(|s|, size) - 1, size);
    }
  }

  /** A `Where` keeps keys distinct. */
  lemma {:induction false} FilterKeysDistinct<T(!new)>(s: seq<T>, key: T -> int, p: T -> bool)
    requires KeysDistinct(s, key)
    ensures KeysDistinct(Filter(s, p), key)
  {
    if s != [] {
      var rest := Filter(s[1..], p);
      assert KeysDistinct(s[1..], key) by {
        assert forall i :: 0 <= i < |s[1..]| ==> s[1..][i] == s[i + 1];
      }
      FilterKeysDistinct(s[1..], key, p);
      forall x | x in rest
        ensures key(x) != key(s[0])
      {
        var k :| 0 <= k < |s[1..]| && s[1..][k] == x;
        assert s[k + 1] == x;
      }
    }
  }

  /** Counting a predicate that holds when exactly one of two others holds adds their counts. */
  lemma {:induction false} CountOr<T(!new)>(s: seq<T>, p: T -> bool, q: T -> bool, r: T -> bool)
    requires forall x :: x in s ==> (r(x) <==> p(x) || q(x)) && !(p(x) && q(x))
    ensures Count(s, r) == Count(s, p) + Count(s, q)
  {
    if s != [] {
      assert forall x :: x in s[1..] ==> x in s;
      CountOr(s[1..], p, q, r);
    }
  }

  lemma MulMono(a: int, b: int, c: nat)
    requires a <= b
    ensures a * c <= b * c
  {
  }
  /** Every earlier element stands in `rel` to every later one. */
  predicate Pairwise<T>(s: seq<T>, rel: (T, T) -> bool)
  {
    forall i, j :: 0 <= i < j < |s| ==> rel(s[i], s[j])
  }

  /** A `Where` keeps a relation that held between every earlier and every later element. */
  lemma {:induction false} FilterPairwise<T(!new)>(s: seq<T>, p: T -> bool, rel: (T, T) -> bool)
    requires Pairwise(s, rel)
    ensures Pairwise(Filter(s, p), rel)
  {
    if s != [] {
      var rest := Filter(s[1..], p);
      assert Pairwise(s[1..], rel) by {
        assert forall i :: 0 <= i < |s[1..]| ==> s[1..][i] == s[i + 1];
      }
      FilterPairwise(s[1..], p, rel);
      forall x | x in rest
        ensures rel(s[0], x)
      {
        var k :| 0 <= k < |s[1..]| && s[1..][k] == x;
        assert s[k + 1] == x;
      }
      var r := Filter(s, p);
      if p(s[0]) {
        assert r == [s[0]] + rest;
        forall i, j | 0 <= i < j < |r|
          ensures rel(r[i], r[j])
        {
          if i == 0 {
            assert r[j] == rest[j - 1] && rest[j - 1] in rest;
          } else {
            assert r[i] == rest[i - 1] && r[j] == rest[j - 1];
          }
        }
      } else {
        assert r == rest;
      }
    }
  }

  /** A predicate counted on every element holds on every element. */
  lemma {:induction false} CountAll<T>(s: seq<T>, p: T -> bool)
    requires Count(s, p) == |s|
    ensures forall x :: x in s ==> p(x)
  {
    if s != [] {
      assert Count(s[1..], p) <= |s[1..]|;
      CountAll(s[1..], p);
      assert forall x :: x in s ==> x == s[0] || x in s[1..];
    }
  }

  /** `Where` on a non-empty list: the head kept or dropped, then the rest. */
  lemma FilterCons<T(!new)>(s: seq<T>, p: T -> bool)
    requires s != []
    ensures p(s[0]) ==> Filter(s, p) == [s[0]] + Filter(s[1..], p)
    ensures !p(s[0]) ==> Filter(s, p) == Filter(s[1..], p)
  {
  }

  /** A `Where` never counts more of anything than the whole list. */
  lemma {:induction false} CountFilterLe<T(!new)>(s: seq<T>, p: T -> bool, q: T -> bool)
    ensures Count(Filter(s, p), q) <= Count(s, q)
  {
    if s != [] {
      CountFilterLe(s[1..], p, q);
      var rest := Filter(s[1..], p);
      FilterCons(s, p);
      if p(s[0]) {
        assert ([s[0]] + rest)[1..] == rest;
      }
    }
  }
  /** Counting over a `Where` counts the conjunction over the whole list. */
  lemma {:induction false} CountFilter<T(!new)>(s: seq<T>, p: T -> bool, q: T -> bool, r: T -> bool)
    requires forall x :: x in s ==> (r(x) <==> p(x) && q(x))
    ensures Count(Filter(s, p), q) == Count(s, r)
  {
    if s != [] {
      assert forall x :: x in s[1..] ==> x in s;
      CountFilter(s[1..], p, q, r);
      var rest := Filter(s[1..], p);
      FilterCons(s, p);
      if p(s[0]) {
        assert ([s[0]] + rest)[1..] == rest;
      }
    }
  }
  /** What a `Where` drops of the elements counted by `q` is counted by `both`. */
  lemma {:induction false} CountFilterSplit<T(!new)>(s: seq<T>, keep: T -> bool, q: T -> bool, both: T -> bool)
    requires forall x :: x in s ==> (both(x) <==> q(x) && !keep(x))
    ensures Count(Filter(s, keep), q) + Count(s, both) == Count(s, q)
  {
    if s != [] {
      assert forall x :: x in s[1..] ==> x in s;
      CountFilterSplit(s[1..], keep, q, both);
      var rest := Filter(s[1..], keep);
      assert Count(s, q) == (if q(s[0]) then 1 else 0) + Count(s[1..], q);
      assert Count(s, both) == (if both(s[0]) then 1 else 0) + Count(s[1..], both);
      if keep(s[0]) {
        var f := [s[0]] + rest;
        assert Filter(s, keep) == f;
        assert f[0] == s[0] && f[1..] == rest;
        assert Count(f, q) == (if q(s[0]) then 1 else 0) + Count(rest, q);
      } else {
        assert Filter(s, keep) == rest;
      }
    }
  }

  /** `Select(f).Take(n)` is `Take(n).Select(f)`. */
  lemma MapTake<T, U>(s: seq<T>, f: T -> U, n: int)
    ensures Take(Map(s, f), n) == Map(Take(s, n), f)
  {
    if 0 < n < |s| {
      assert Map(s, f)[..n] == Map(s[..n], f);
    }
  }

  /** Leaving out elements that add nothing leaves the sum as it was. */
  lemma {:induction false} SumFilterZeros<T(!new)>(s: seq<T>, p: T -> bool, f: T -> int)
    requires forall i :: 0 <= i < |s| && !p(s[i]) ==> f(s[i]) == 0
    ensures Sum(Filter(s, p), f) == Sum(s, f)
  {
    if s != [] {
      var rest := Filter(s[1..], p);
      assert forall i :: 0 <= i < |s[1..]| ==> s[1..][i] == s[i + 1];
      SumFilterZeros(s[1..], p, f);
      if p(s[0]) {
        var r := [s[0]] + rest;
        assert Filter(s, p) == r;
        assert r[1..] == rest;
      } else {
        assert Filter(s, p) == rest;
      }
    }
  }

  // ---------------------------------------------------------------------------
  // A query narrowed by a run of optional `Where` stages

  /** The test that lets nothing out. */
  function Always<T>(): T -> bool
  {
    (x: T) => true
  }

  /** The test of the stages so far, followed by `p` when `on` holds. */
  function AndIf<T>(r: T -> bool, on: bool, p: T -> bool): T -> bool
  {
    (x: T) => r(x) && (on ==> p(x))
  }

  /** `if (on) query = query.Where(p);` narrows the filtered list to one filter on the combined test. */
  lemma NarrowStep<T(!new)>(s: seq<T>, r: T -> bool, on: bool, p: T -> bool)
    ensures (if on then Filter(Filter(s, r), p) else Filter(s, r)) == Filter(s, AndIf(r, on, p))
  {
    if on {
      FilterFilterAs(s, r, p, AndIf(r, on, p));
    } else {
      FilterCongruent(s, r, AndIf(r, on, p));
    }
  }
}
