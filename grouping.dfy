// In-memory grouping (LINQ `GroupBy`): the groups of a list by a key, in
// the order their keys first occur, their sizes, and the largest of them.
module Grouping {
  import opened Seqs
  import opened Sorting

  /** The keys of the groups, each once, in the order each first occurs. */
  function GroupKeys<T, K(==,!new)>(s: seq<T>, key: T -> K): seq<K>
  {
    Distinct(Map(s, key))
  }

  /** `g.Count()`: how many rows of `s` have key `k`. */
  function GroupSize<T, K(==)>(s: seq<T>, key: T -> K, k: K): nat
  {
    Count(s, (x: T) => key(x) == k)
  }

  /** A group key with the size of its group. */
  datatype Tally<K> = Tally(key: K, count: nat)

  function TallyOf<T, K(==)>(s: seq<T>, key: T -> K): K -> Tally<K>
  {
    (k: K) => Tally(k, GroupSize(s, key, k))
  }

  /** `GroupBy(key).Select(g => new { g.Key, Count = g.Count() })`. */
  function Tallies<T, K(==,!new)>(s: seq<T>, key: T -> K): seq<Tally<K>>
  {
    Map(GroupKeys(s, key), TallyOf(s, key))
  }

  function CountKey<K>(g: Tally<K>): Key
  {
    [Num(g.count as real)]
  }

  /** `.OrderByDescending(g => g.Count()).Take(n)`: the largest groups, larger first, ties in group order. */
  function TopTallies<T, K(==,!new)>(s: seq<T>, key: T -> K, n: int): seq<Tally<K>>
  {
    Take(SortBy(Tallies(s, key), CountKey, true), n)
  }

  function KeysOf<K>(r: seq<Tally<K>>): seq<K>
  {
    Map(r, (g: Tally<K>) => g.key)
  }

  // ---------------------------------------------------------------------------

  /** A key is listed exactly when some tally carries it. */
  lemma KeysOfIndex<K>(r: seq<Tally<K>>, k: K)
    ensures k in KeysOf(r) <==> exists i :: 0 <= i < |r| && r[i].key == k
  {
    if exists i :: 0 <= i < |r| && r[i].key == k {
      var i :| 0 <= i < |r| && r[i].key == k;
      assert KeysOf(r)[i] == k;
    }
  }

  lemma MapMember<T, K>(s: seq<T>, key: T -> K, x: T)
    requires x in s
    ensures key(x) in Map(s, key)
  {
    var i :| 0 <= i < |s| && s[i] == x;
    assert Map(s, key)[i] == key(x);
  }

  /** A key that occurs in the list has a non-empty group. */
  lemma GroupSizePositive<T(!new), K>(s: seq<T>, key: T -> K, k: K)
    requires k in Map(s, key)
    ensures GroupSize(s, key, k) >= 1
  {
    var i :| 0 <= i < |s| && Map(s, key)[i] == k;
    CountPositive(s, (x: T) => key(x) == k);
  }

  /** A group's size is the count of any test that picks out exactly the rows with its key. */
  lemma GroupSizeAs<T(!new), K>(s: seq<T>, key: T -> K, k: K, p: T -> bool)
    requires forall x :: x in s ==> (p(x) <==> key(x) == k)
    ensures GroupSize(s, key, k) == Count(s, p)
  {
    CountCongruent(s, (x: T) => key(x) == k, p);
  }

  /** A non-empty group has a row with its key. */
  lemma GroupWitness<T(!new), K>(s: seq<T>, key: T -> K, k: K)
    requires GroupSize(s, key, k) >= 1
    ensures exists x :: x in s && key(x) == k
  {
    CountZero(s, (x: T) => key(x) == k);
  }

  /** No key is listed twice. */
  ghost predicate DistinctKeys<K>(r: seq<Tally<K>>)
  {
    forall i, j :: 0 <= i < j < |r| ==> r[i].key != r[j].key
  }

  /** Every tally counts the rows of `s` with its key, and is not empty. */
  ghost predicate CountsGroups<T, K>(r: seq<Tally<K>>, s: seq<T>, key: T -> K)
  {
    forall t :: t in r ==> t.count == GroupSize(s, key, t.key) && t.count >= 1
  }

  /** Every row of `s` has its key listed. */
  ghost predicate CoversKeys<T, K>(r: seq<Tally<K>>, s: seq<T>, key: T -> K)
  {
    forall x :: x in s ==> key(x) in KeysOf(r)
  }

  /** Every key of the list has exactly one group, every group is non-empty, and each counts the rows with its key. */
  lemma TalliesSpec<T(!new), K(!new)>(s: seq<T>, key: T -> K)
    ensures var g := Tallies(s, key);
      DistinctKeys(g) && CountsGroups(g, s, key) && CoversKeys(g, s, key)
  {
    var ks := GroupKeys(s, key);
    var g := Tallies(s, key);
    forall i | 0 <= i < |g|
      ensures g[i].key == ks[i] && g[i].count >= 1
    {
      assert ks[i] in ks;
      GroupSizePositive(s, key, ks[i]);
    }
    forall x | x in s
      ensures key(x) in KeysOf(g)
    {
      MapMember(s, key, x);
      var i :| 0 <= i < |ks| && ks[i] == key(x);
      assert KeysOf(g)[i] == key(x);
    }
  }

  /** On a one-atom count key, "not strictly before" in descending order is "at least as large". */
  lemma CountKeyOrder<K>(a: Tally<K>, b: Tally<K>)
    ensures !Before(CountKey, true, b, a) <==> a.count >= b.count
  {
    var ka, kb := CountKey(a), CountKey(b);
    assert ka[1..] == [] && kb[1..] == [];
    assert !KeyLt(ka[1..], kb[1..]);
    assert Before(CountKey, true, b, a) == KeyLt(ka, kb);
    assert KeyLt(ka, kb) <==> a.count < b.count;
  }

  lemma MemberOfSorted<K>(g: seq<Tally<K>>, t: Tally<K>)
    requires t in SortBy(g, CountKey, true)
    ensures t in g
  {
    SortByMembers(g, CountKey, true);
  }

  /** Tallies with distinct keys, sorted by size, keep their keys distinct and come largest first. */
  lemma SortedTalliesOrder<K>(g: seq<Tally<K>>)
    requires DistinctKeys(g)
    ensures var r := SortBy(g, CountKey, true);
      DistinctKeys(r) && LargestFirst(r)
  {
    var r := SortBy(g, CountKey, true);
    assert NoDup(g);
    SortByNoDup(g, CountKey, true);
    SortBySorted(g, CountKey, true);
    SortByMembers(g, CountKey, true);
    forall i, j | 0 <= i < j < |r|
      ensures r[i].key != r[j].key && r[i].count >= r[j].count
    {
      CountKeyOrder(r[i], r[j]);
      MemberOfSorted(g, r[i]);
      MemberOfSorted(g, r[j]);
    }
  }

  /** Sorting keeps what is said of every tally, and which keys are listed. */
  lemma SortedTalliesCover<T, K>(g: seq<Tally<K>>, s: seq<T>, key: T -> K)
    requires CountsGroups(g, s, key) && CoversKeys(g, s, key)
    ensures var r := SortBy(g, CountKey, true);
      CountsGroups(r, s, key) && CoversKeys(r, s, key)
  {
    var r := SortBy(g, CountKey, true);
    SortByMembers(g, CountKey, true);
    assert CountsGroups(r, s, key);
    forall x | x in s
      ensures key(x) in KeysOf(r)
    {
      var k :| 0 <= k < |g| && KeysOf(g)[k] == key(x);
      assert g[k] in r;
      var j :| 0 <= j < |r| && r[j] == g[k];
      assert KeysOf(r)[j] == key(x);
    }
  }

  /** Largest first. */
  ghost predicate LargestFirst<K>(r: seq<Tally<K>>)
  {
    forall i, j :: 0 <= i < j < |r| ==> r[i].count >= r[j].count
  }

  /** A key of `s` missing from `r` means `r` holds `n` tallies, none smaller than that key's group. */
  ghost predicate KeepsLargest<T, K>(r: seq<Tally<K>>, s: seq<T>, key: T -> K, n: int)
  {
    forall x :: x in s && key(x) !in KeysOf(r) ==>
      |r| == n && forall t :: t in r ==> t.count >= GroupSize(s, key, key(x))
  }

  /** A tally among the first `n` has its key listed among the first `n`. */
  lemma TakeKeepsKey<K>(g: seq<Tally<K>>, n: int, j: nat)
    requires j < |g|
    ensures j < n ==> g[j].key in KeysOf(Take(g, n))
  {
    if j < n {
      assert KeysOf(Take(g, n))[j] == g[j].key;
    }
  }

  /** In a list largest first, the tallies before position `j` are none smaller than the one at `j`. */
  lemma PrefixAtLeast<K>(g: seq<Tally<K>>, m: nat, j: nat)
    requires LargestFirst(g) && m <= j < |g|
    ensures forall t :: t in g[..m] ==> t.count >= g[j].count
  {
    forall t | t in g[..m]
      ensures t.count >= g[j].count
    {
      var i :| 0 <= i < m && g[..m][i] == t;
      assert g[i] == t;
    }
  }

  /** The first `n` of a complete list of tallies, largest first, are the `n` largest. */
  lemma TakeLargest<T, K>(g: seq<Tally<K>>, s: seq<T>, key: T -> K, n: int)
    requires n >= 0
    requires DistinctKeys(g) && LargestFirst(g) && CountsGroups(g, s, key) && CoversKeys(g, s, key)
    ensures var r := Take(g, n);
      |r| <= n && DistinctKeys(r) && LargestFirst(r) && CountsGroups(r, s, key) && KeepsLargest(r, s, key, n)
  {
    var m := if n <= |g| then n else |g|;
    var r := Take(g, n);
    assert r == g[..m];
    forall x | x in s && key(x) !in KeysOf(r)
      ensures |r| == n && forall t :: t in r ==> t.count >= GroupSize(s, key, key(x))
    {
      var j :| 0 <= j < |g| && KeysOf(g)[j] == key(x);
      TakeKeepsKey(g, n, j);
      assert g[j] in g;
      PrefixAtLeast(g, m, j);
    }
  }

  /**
   * The `n` largest groups: at most `n`, distinct, largest first, each
   * with its group's size; and a key left out means the list is full and
   * every listed group is at least as large as the one left out.
   */
  lemma TopTalliesSpec<T(!new), K(!new)>(s: seq<T>, key: T -> K, n: int)
    requires n >= 0
    ensures var r := TopTallies(s, key, n);
      |r| <= n && DistinctKeys(r) && LargestFirst(r) && CountsGroups(r, s, key) && KeepsLargest(r, s, key, n)
  {
    var g := Tallies(s, key);
    TalliesSpec(s, key);
    SortedTalliesOrder(g);
    SortedTalliesCover(g, s, key);
    TakeLargest(SortBy(g, CountKey, true), s, key, n);
  }
}
