// Ordering of query results (LINQ OrderBy / OrderByDescending / ThenBy).
//
// A sort key is a sequence of atoms compared lexicographically, so that
// `OrderBy(a).ThenBy(b)` is a sort on the key `[a, b]`. A null value is
// either the smallest atom (an in-memory LINQ sort) or the largest one
// (a PostgreSQL `ORDER BY`, which places nulls last when ascending).
module Sorting {
  import opened Seqs

  datatype Atom =
    | NullFirst
    | Num(n: real)
    | Str(s: string)
    | NullLast

  type Key = seq<Atom>

  function Rank(a: Atom): nat
  {
    match a
    case NullFirst => 0
    case Num(_) => 1
    case Str(_) => 2
    case NullLast => 3
  }

  /** Ordinal string order: by character code, a proper prefix first. */
  predicate StrLt(a: string, b: string)
    decreases |a|
  {
    (a == [] && b != []) ||
    (a != [] && b != [] && (a[0] < b[0] || (a[0] == b[0] && StrLt(a[1..], b[1..]))))
  }

  predicate AtomLt(a: Atom, b: Atom)
  {
    Rank(a) < Rank(b) ||
    (a.Num? && b.Num? && a.n < b.n) ||
    (a.Str? && b.Str? && StrLt(a.s, b.s))
  }

  /** Strict lexicographic order on keys. */
  predicate KeyLt(a: Key, b: Key)
    decreases |a|
  {
    (a == [] && b != []) ||
    (a != [] && b != [] && (AtomLt(a[0], b[0]) || (a[0] == b[0] && KeyLt(a[1..], b[1..]))))
  }

  /** `x` must come strictly before `y` in a sort on `key`, ascending or descending. */
  predicate Before<T>(key: T -> Key, desc: bool, x: T, y: T)
  {
    if desc then KeyLt(key(y), key(x)) else KeyLt(key(x), key(y))
  }

  /** No later element must come strictly before an earlier one. */
  predicate Sorted<T>(s: seq<T>, key: T -> Key, desc: bool)
  {
    forall i, j :: 0 <= i < j < |s| ==> !Before(key, desc, s[j], s[i])
  }

  /** Inserts `x` after every element it does not have to precede. */
  function Insert<T>(x: T, s: seq<T>, key: T -> Key, desc: bool): (r: seq<T>)
    ensures multiset(r) == multiset(s) + multiset{x}
    ensures |r| == |s| + 1
  {
    if s == [] then [x]
    else if Before(key, desc, x, s[0]) then [x] + s
    else
      assert s == [s[0]] + s[1..];
      [s[0]] + Insert(x, s[1..], key, desc)
  }

  /** Stable insertion sort on `key` (LINQ `OrderBy` / `OrderByDescending`). */
  function SortBy<T>(s: seq<T>, key: T -> Key, desc: bool): (r: seq<T>)
    ensures multiset(r) == multiset(s)
    ensures |r| == |s|
  {
    if s == [] then []
    else
      assert s == s[..|s| - 1] + [s[|s| - 1]];
      Insert(s[|s| - 1], SortBy(s[..|s| - 1], key, desc), key, desc)
  }

  // ---------------------------------------------------------------------------
  // The key order is a strict total order.

  lemma {:induction false} StrLtIrreflexive(a: string)
    ensures !StrLt(a, a)
    decreases |a|
  {
    if a != [] {
      StrLtIrreflexive(a[1..]);
    }
  }

  lemma {:induction false} StrLtTransitive(a: string, b: string, c: string)
    requires StrLt(a, b) && StrLt(b, c)
    ensures StrLt(a, c)
    decreases |a|
  {
    if a != [] && a[0] == b[0] && b[0] == c[0] {
      StrLtTransitive(a[1..], b[1..], c[1..]);
    }
  }

  lemma {:induction false} StrLtTotal(a: string, b: string)
    ensures a == b || StrLt(a, b) || StrLt(b, a)
    decreases |a|
  {
    if a != [] && b != [] && a[0] == b[0] {
      StrLtTotal(a[1..], b[1..]);
      if a[1..] == b[1..] {
        assert a == [a[0]] + a[1..] && b == [b[0]] + b[1..];
      }
    }
  }

  lemma AtomLtTransitive(a: Atom, b: Atom, c: Atom)
    requires AtomLt(a, b) && AtomLt(b, c)
    ensures AtomLt(a, c)
  {
    if a.Str? && b.Str? && c.Str? {
      StrLtTransitive(a.s, b.s, c.s);
    }
  }

  lemma AtomLtTotal(a: Atom, b: Atom)
    ensures a == b || AtomLt(a, b) || AtomLt(b, a)
  {
    if a.Str? && b.Str? {
      StrLtTotal(a.s, b.s);
    }
  }

  lemma AtomLtIrreflexive(a: Atom)
    ensures !AtomLt(a, a)
  {
    if a.Str? {
      StrLtIrreflexive(a.s);
    }
  }

  lemma {:induction false} KeyLtIrreflexive(a: Key)
    ensures !KeyLt(a, a)
    decreases |a|
  {
    if a != [] {
      AtomLtIrreflexive(a[0]);
      KeyLtIrreflexive(a[1..]);
    }
  }

  lemma {:induction false} KeyLtTransitive(a: Key, b: Key, c: Key)
    requires KeyLt(a, b) && KeyLt(b, c)
    ensures KeyLt(a, c)
    decreases |a|
  {
    if a != [] {
      if AtomLt(a[0], b[0]) && AtomLt(b[0], c[0]) {
        AtomLtTransitive(a[0], b[0], c[0]);
      } else if a[0] == b[0] && b[0] == c[0] {
        KeyLtTransitive(a[1..], b[1..], c[1..]);
      }
    }
  }

  lemma {:induction false} KeyLtTotal(a: Key, b: Key)
    ensures a == b || KeyLt(a, b) || KeyLt(b, a)
    decreases |a|
  {
    if a != [] && b != [] {
      AtomLtTotal(a[0], b[0]);
      if a[0] == b[0] {
        KeyLtTotal(a[1..], b[1..]);
        if a[1..] == b[1..] {
          assert a == [a[0]] + a[1..] && b == [b[0]] + b[1..];
        }
      }
    }
  }

  lemma KeyLtAsymmetric(a: Key, b: Key)
    requires KeyLt(a, b)
    ensures !KeyLt(b, a)
  {
    if KeyLt(b, a) {
      KeyLtTransitive(a, b, a);
      KeyLtIrreflexive(a);
    }
  }

  /** "Need not come after" is transitive, which makes insertion sort correct. */
  lemma NotBeforeTransitive<T>(key: T -> Key, desc: bool, x: T, y: T, z: T)
    requires !Before(key, desc, y, x) && !Before(key, desc, z, y)
    ensures !Before(key, desc, z, x)
  {
    var kx, ky, kz := key(x), key(y), key(z);
    KeyLtTotal(kx, ky);
    KeyLtTotal(ky, kz);
    if desc {
      if KeyLt(kx, kz) {
        if kx == ky {
        } else {
          KeyLtTransitive(kx, kz, ky);
        }
      }
    } else {
      if KeyLt(kz, kx) {
        if ky == kz {
        } else {
          KeyLtTransitive(ky, kz, kx);
        }
      }
    }
  }

  lemma BeforeAsymmetric<T>(key: T -> Key, desc: bool, x: T, y: T)
    requires Before(key, desc, x, y)
    ensures !Before(key, desc, y, x)
  {
    if desc {
      KeyLtAsymmetric(key(y), key(x));
    } else {
      KeyLtAsymmetric(key(x), key(y));
    }
  }

  // ---------------------------------------------------------------------------
  // Correctness of the sort.

  lemma {:induction false} InsertSorted<T>(x: T, s: seq<T>, key: T -> Key, desc: bool)
    requires Sorted(s, key, desc)
    ensures Sorted(Insert(x, s, key, desc), key, desc)
    ensures forall y :: y in Insert(x, s, key, desc) ==> y == x || y in s
  {
    var r := Insert(x, s, key, desc);
    if s == [] {
    } else if Before(key, desc, x, s[0]) {
      forall i, j | 0 <= i < j < |r|
        ensures !Before(key, desc, r[j], r[i])
      {
        if i == 0 {
          BeforeAsymmetric(key, desc, x, s[0]);
          if j > 1 {
            NotBeforeTransitive(key, desc, x, s[0], s[j - 1]);
          }
        } else {
          assert r[i] == s[i - 1] && r[j] == s[j - 1];
        }
      }
    } else {
      var t := Insert(x, s[1..], key, desc);
      InsertSorted(x, s[1..], key, desc);
      assert r == [s[0]] + t;
      forall i, j | 0 <= i < j < |r|
        ensures !Before(key, desc, r[j], r[i])
      {
        if i == 0 {
          assert r[j] in t;
          if r[j] != x {
            var k :| 0 <= k < |s[1..]| && s[1..][k] == r[j];
            assert s[k + 1] == r[j];
          }
        } else {
          assert r[i] == t[i - 1] && r[j] == t[j - 1];
        }
      }
    }
  }

  /** `SortBy` returns its input reordered so that the key order is respected. */
  lemma {:induction false} SortBySorted<T>(s: seq<T>, key: T -> Key, desc: bool)
    ensures Sorted(SortBy(s, key, desc), key, desc)
    decreases |s|
  {
    if s != [] {
      SortBySorted(s[..|s| - 1], key, desc);
      InsertSorted(s[|s| - 1], SortBy(s[..|s| - 1], key, desc), key, desc);
    }
  }

  /** An element is in the sorted list exactly when it is in the input. */
  lemma SortByMembers<T>(s: seq<T>, key: T -> Key, desc: bool)
    ensures forall x :: x in SortBy(s, key, desc) <==> x in s
  {
    var r := SortBy(s, key, desc);
    forall x
      ensures x in r <==> x in s
    {
      assert x in r <==> x in multiset(r);
      assert x in s <==> x in multiset(s);
    }
  }

  /** Any contiguous run of a sorted list is sorted. */
  lemma SortedSlice<T>(s: seq<T>, key: T -> Key, desc: bool, lo: int, hi: int)
    requires Sorted(s, key, desc) && 0 <= lo <= hi <= |s|
    ensures Sorted(s[lo..hi], key, desc)
  {
    forall i, j | 0 <= i < j < hi - lo
      ensures !Before(key, desc, s[lo..hi][j], s[lo..hi][i])
    {
      assert s[lo..hi][i] == s[lo + i] && s[lo..hi][j] == s[lo + j];
    }
  }

  /** A key order that allows no ties between different elements is strict along a sorted list. */
  lemma SortedStrict<T>(s: seq<T>, key: T -> Key, desc: bool)
    requires Sorted(s, key, desc)
    requires forall i, j :: 0 <= i < j < |s| ==> key(s[i]) != key(s[j])
    ensures forall i, j :: 0 <= i < j < |s| ==> Before(key, desc, s[i], s[j])
  {
    forall i, j | 0 <= i < j < |s|
      ensures Before(key, desc, s[i], s[j])
    {
      KeyLtTotal(key(s[i]), key(s[j]));
    }
  }

  /** A page of a sorted list is sorted and holds only elements of the list. */
  lemma PageSorted<T>(s: seq<T>, key: T -> Key, desc: bool, page: int, size: int)
    requires Sorted(s, key, desc)
    ensures Sorted(PageOf(s, page, size), key, desc)
    ensures forall x :: x in PageOf(s, page, size) ==> x in s
  {
    var off := Offset(page, size);
    var k := Skip(s, off);
    var lo := if off <= 0 then 0 else if off >= |s| then |s| else off;
    assert k == s[lo..];
    var hi := if size <= 0 then lo else if size >= |k| then |s| else lo + size;
    assert PageOf(s, page, size) == s[lo..hi];
    SortedSlice(s, key, desc, lo, hi);
    assert forall x :: x in s[lo..hi] ==> x in s;
  }

  /** Inserting a new element into a list without repeats gives a list without repeats. */
  lemma {:induction false} InsertNoDup<T>(x: T, s: seq<T>, key: T -> Key, desc: bool)
    requires NoDup(s) && x !in s
    ensures NoDup(Insert(x, s, key, desc))
    decreases |s|
  {
    if s != [] && !Before(key, desc, x, s[0]) {
      var tail := s[1..];
      assert NoDup(tail) by {
        forall i, j | 0 <= i < j < |tail|
          ensures tail[i] != tail[j]
        {
          assert tail[i] == s[i + 1] && tail[j] == s[j + 1];
        }
      }
      assert x !in tail;
      InsertNoDup(x, tail, key, desc);
      var rest := Insert(x, tail, key, desc);
      assert s[0] !in tail by {
        forall k | 0 <= k < |tail|
          ensures tail[k] != s[0]
        {
          assert tail[k] == s[k + 1];
        }
      }
      assert s[0] !in multiset(rest);
      var r := [s[0]] + rest;
      forall i, j | 0 <= i < j < |r|
        ensures r[i] != r[j]
      {
        assert r[j] == rest[j - 1];
        if i > 0 {
          assert r[i] == rest[i - 1];
        }
      }
    }
  }

  /** Sorting a list without repeats gives a list without repeats. */
  lemma {:induction false} SortByNoDup<T>(s: seq<T>, key: T -> Key, desc: bool)
    requires NoDup(s)
    ensures NoDup(SortBy(s, key, desc))
    decreases |s|
  {
    if s != [] {
      var init := s[..|s| - 1];
      var last := s[|s| - 1];
      assert NoDup(init) by {
        forall i, j | 0 <= i < j < |init|
          ensures init[i] != init[j]
        {
          assert init[i] == s[i] && init[j] == s[j];
        }
      }
      SortByNoDup(init, key, desc);
      var sorted := SortBy(init, key, desc);
      assert last !in init by {
        forall k | 0 <= k < |init|
          ensures init[k] != last
        {
          assert init[k] == s[k];
        }
      }
      assert last !in multiset(sorted);
      InsertNoDup(last, sorted, key, desc);
    }
  }
  /** A page of a sorted copy, when PostgreSQL answers it, holds at most `size` elements of the list, in order. */
  lemma SortedPage<T>(s: seq<T>, key: T -> Key, desc: bool, page: int, size: int)
    ensures var r := DbPage(SortBy(s, key, desc), page, size);
      r.Some? ==> |r.value| <= size && Sorted(r.value, key, desc) && forall x :: x in r.value ==> x in s
  {
    var sorted := SortBy(s, key, desc);
    var r := DbPage(sorted, page, size);
    if r.Some? {
      DbPageSpec(sorted, page, size);
      SortBySorted(s, key, desc);
      PageSorted(sorted, key, desc, page, size);
      forall x | x in r.value
        ensures x in s
      {
        SortByMembers(s, key, desc);
      }
    }
  }

  /** `OrderBy(key).First()`: an element of the list that no element of it comes before. */
  lemma SortByFirst<T>(s: seq<T>, key: T -> Key, desc: bool)
    requires s != []
    ensures SortBy(s, key, desc) != [] && SortBy(s, key, desc)[0] in s
    ensures forall x :: x in s ==> !Before(key, desc, x, SortBy(s, key, desc)[0])
  {
    var sorted := SortBy(s, key, desc);
    SortByMembers(s, key, desc);
    SortBySorted(s, key, desc);
    var m := sorted[0];
    assert m in sorted;
    forall x | x in s
      ensures !Before(key, desc, x, m)
    {
      var j :| 0 <= j < |sorted| && sorted[j] == x;
      if j == 0 {
        KeyLtIrreflexive(key(m));
      }
    }
  }

  /**
   * `OrderBy(key).Take(n)`: the first `n` elements in sorted order (all of
   * them when there are fewer), in order, and none of the elements left
   * out comes before any element taken.
   */
  lemma TopOf<T>(s: seq<T>, key: T -> Key, desc: bool, n: nat)
    ensures var r := Take(SortBy(s, key, desc), n);
      |r| == (if |s| < n then |s| else n) && Sorted(r, key, desc) && forall x :: x in r ==> x in s
    ensures var r := Take(SortBy(s, key, desc), n);
      forall x, y :: x in r && y in s && y !in r ==> !Before(key, desc, y, x)
  {
    var sorted := SortBy(s, key, desc);
    var r := Take(sorted, n);
    SortBySorted(s, key, desc);
    SortByMembers(s, key, desc);
    if n < |sorted| {
      SortedSlice(sorted, key, desc, 0, n);
    }
    forall x, y | x in r && y in s && y !in r
      ensures !Before(key, desc, y, x)
    {
      var i :| 0 <= i < |r| && r[i] == x;
      var j :| 0 <= j < |sorted| && sorted[j] == y;
      assert sorted[i] == x;
    }
  }

  // ---------------------------------------------------------------------------
  // Sorting a projection

  lemma MapCons<T, U>(x: T, s: seq<T>, f: T -> U)
    ensures Map([x] + s, f) == [f(x)] + Map(s, f)
  {
    assert ([x] + s)[1..] == s;
  }

  /** Inserting into a projection, on a key that the projection keeps, projects the insertion. */
  lemma {:induction false} InsertMap<T, U>(x: T, s: seq<T>, f: T -> U, k1: T -> Key, k2: U -> Key, desc: bool)
    requires forall y :: k2(f(y)) == k1(y)
    ensures Insert(f(x), Map(s, f), k2, desc) == Map(Insert(x, s, k1, desc), f)
    decreases |s|
  {
    if s == [] {
      assert Map([x], f) == [f(x)];
    } else {
      var m := Map(s, f);
      assert m[0] == f(s[0]) && m[1..] == Map(s[1..], f);
      assert Before(k2, desc, f(x), f(s[0])) == Before(k1, desc, x, s[0]);
      if Before(k1, desc, x, s[0]) {
        MapCons(x, s, f);
      } else {
        InsertMap(x, s[1..], f, k1, k2, desc);
        MapCons(s[0], Insert(x, s[1..], k1, desc), f);
      }
    }
  }

  /** `Select(f).OrderBy(k2)` is `OrderBy(k1).Select(f)` when `k2` of a projection is `k1` of the element. */
  lemma {:induction false} SortByMap<T, U>(s: seq<T>, f: T -> U, k1: T -> Key, k2: U -> Key, desc: bool)
    requires forall y :: k2(f(y)) == k1(y)
    ensures SortBy(Map(s, f), k2, desc) == Map(SortBy(s, k1, desc), f)
    decreases |s|
  {
    if s != [] {
      var m := Map(s, f);
      var init, x := s[..|s| - 1], s[|s| - 1];
      assert m[..|m| - 1] == Map(init, f);
      assert m[|m| - 1] == f(x);
      SortByMap(init, f, k1, k2, desc);
      InsertMap(x, SortBy(init, k1, desc), f, k1, k2, desc);
      assert SortBy(m, k2, desc) == Insert(f(x), SortBy(Map(init, f), k2, desc), k2, desc);
    }
  }
}
