/** Population culling: when a population exceeds its cap it is sorted by
    ascending energy, stably (Python's `list.sort` with a key; the web port's
    `Array.prototype.sort`, stable since ES2019), and the lowest-energy
    entries are dropped until exactly the cap remains. Entries are paired
    with the key they are sorted by. */
module Ranking {
  import opened Lists

  /** Keys never decrease along the sequence. */
  ghost predicate SortedByKey<T>(s: seq<(T, real)>) {
    forall i, j :: 0 <= i < j < |s| ==> s[i].1 <= s[j].1
  }

  /** The entries with key `k`, in their order in `s`. */
  function WithKey<T>(s: seq<(T, real)>, k: real): seq<(T, real)> {
    if s == [] then []
    else WithKey(s[..|s| - 1], k) + (if s[|s| - 1].1 == k then [s[|s| - 1]] else [])
  }

  /** Inserts `x` into a sorted sequence after every entry whose key is at most
      its own, so equal keys keep their arrival order. */
  function Insert<T>(s: seq<(T, real)>, x: (T, real)): (r: seq<(T, real)>)
    ensures |r| == |s| + 1
  {
    if s == [] then [x]
    else if x.1 < s[0].1 then [x] + s
    else [s[0]] + Insert(s[1..], x)
  }

  /** Insertion adds exactly the inserted entry. */
  lemma {:induction false} InsertPermutes<T>(s: seq<(T, real)>, x: (T, real))
    ensures multiset(Insert(s, x)) == multiset(s) + multiset{x}
  {
    if s != [] && x.1 >= s[0].1 {
      assert s == [s[0]] + s[1..];
      InsertPermutes(s[1..], x);
    }
  }

  /** A lower bound on every key, including the inserted one's, bounds the
      result's keys. */
  lemma {:induction false} InsertBound<T>(s: seq<(T, real)>, x: (T, real), lo: real)
    requires forall i :: 0 <= i < |s| ==> lo <= s[i].1
    requires lo <= x.1
    ensures forall i :: 0 <= i < |Insert(s, x)| ==> lo <= Insert(s, x)[i].1
  {
    if s != [] && x.1 >= s[0].1 {
      InsertBound(s[1..], x, lo);
    }
  }

  /** Insertion keeps a sorted sequence sorted. */
  lemma {:induction false} InsertSorted<T>(s: seq<(T, real)>, x: (T, real))
    requires SortedByKey(s)
    ensures SortedByKey(Insert(s, x))
  {
    if s != [] && x.1 >= s[0].1 {
      InsertSorted(s[1..], x);
      InsertBound(s[1..], x, s[0].1);
    }
  }

  /** Insertion sort: sort all but the last entry, then insert the last. */
  function StableSort<T>(s: seq<(T, real)>): (r: seq<(T, real)>)
    ensures |r| == |s|
  {
    if s == [] then [] else Insert(StableSort(s[..|s| - 1]), s[|s| - 1])
  }

  /** The sort is a permutation of its input. */
  lemma {:induction false} StableSortPermutes<T>(s: seq<(T, real)>)
    ensures multiset(StableSort(s)) == multiset(s)
  {
    if s != [] {
      assert s == s[..|s| - 1] + [s[|s| - 1]];
      StableSortPermutes(s[..|s| - 1]);
      InsertPermutes(StableSort(s[..|s| - 1]), s[|s| - 1]);
    }
  }

  /** The sort orders its output by ascending key. */
  lemma {:induction false} StableSortSorts<T>(s: seq<(T, real)>)
    ensures SortedByKey(StableSort(s))
  {
    if s != [] {
      StableSortSorts(s[..|s| - 1]);
      InsertSorted(StableSort(s[..|s| - 1]), s[|s| - 1]);
    }
  }

  lemma {:induction false} WithKeyAppend<T>(a: seq<(T, real)>, b: seq<(T, real)>, k: real)
    ensures WithKey(a + b, k) == WithKey(a, k) + WithKey(b, k)
  {
    if b == [] {
      assert a + b == a;
    } else {
      WithKeyAppend(a, b[..|b| - 1], k);
      assert (a + b)[..|a + b| - 1] == a + b[..|b| - 1];
    }
  }

  lemma {:induction false} WithKeyNone<T>(s: seq<(T, real)>, k: real)
    requires forall i :: 0 <= i < |s| ==> s[i].1 != k
    ensures WithKey(s, k) == []
  {
    if s != [] {
      WithKeyNone(s[..|s| - 1], k);
    }
  }

  /** Inserting `x` adds it at the end of the entries sharing its key and
      leaves the entries of every other key as they were. */
  lemma {:induction false} InsertWithKey<T>(s: seq<(T, real)>, x: (T, real), k: real)
    requires SortedByKey(s)
    ensures WithKey(Insert(s, x), k) == WithKey(s, k) + (if x.1 == k then [x] else [])
  {
    if s == [] {
      WithKeySingle(x, k);
    } else if x.1 < s[0].1 {
      InsertFrontWithKey(s, x, k);
    } else {
      assert SortedByKey(s[1..]);
      InsertWithKey(s[1..], x, k);
      InsertPastWithKey(s, x, k);
    }
  }

  /** The case where `x` goes in front: all of `s` has larger keys. */
  lemma InsertFrontWithKey<T>(s: seq<(T, real)>, x: (T, real), k: real)
    requires SortedByKey(s) && s != [] && x.1 < s[0].1
    ensures WithKey(Insert(s, x), k) == WithKey(s, k) + (if x.1 == k then [x] else [])
  {
    WithKeySingle(x, k);
    WithKeyAppend([x], s, k);
    if x.1 == k {
      WithKeyNone(s, k);
    }
  }

  /** The case where `x` goes past the first entry, given the result for the rest. */
  lemma InsertPastWithKey<T>(s: seq<(T, real)>, x: (T, real), k: real)
    requires s != [] && x.1 >= s[0].1
    requires WithKey(Insert(s[1..], x), k) == WithKey(s[1..], k) + (if x.1 == k then [x] else [])
    ensures WithKey(Insert(s, x), k) == WithKey(s, k) + (if x.1 == k then [x] else [])
  {
    WithKeyAppend([s[0]], Insert(s[1..], x), k);
    WithKeyAppend([s[0]], s[1..], k);
    assert s == [s[0]] + s[1..];
  }

  lemma WithKeySingle<T>(x: (T, real), k: real)
    ensures WithKey([x], k) == if x.1 == k then [x] else []
  {
    assert [x][..0] == [];
  }

  /** Stability: for every key, the entries with that key appear in the
      sorted sequence in the same order as in the input. */
  lemma {:induction false} StableSortKeepsTies<T>(s: seq<(T, real)>, k: real)
    ensures WithKey(StableSort(s), k) == WithKey(s, k)
  {
    if s != [] {
      StableSortKeepsTies(s[..|s| - 1], k);
      StableSortSorts(s[..|s| - 1]);
      InsertWithKey(StableSort(s[..|s| - 1]), s[|s| - 1], k);
    }
  }

  /** What a population keeps under its cap: itself when within the cap,
      otherwise the `cap` highest entries of the stable sort, in sorted order. */
  function Cull<T>(s: seq<(T, real)>, cap: nat): (kept: seq<(T, real)>)
    ensures |kept| == if |s| <= cap then |s| else cap
    ensures |s| <= cap ==> kept == s
  {
    if |s| <= cap then s else StableSort(s)[|s| - cap..]
  }

  /** The entries a cull drops: the `|s| - cap` lowest of the stable sort. */
  function Culled<T>(s: seq<(T, real)>, cap: nat): seq<(T, real)> {
    if |s| <= cap then [] else StableSort(s)[..|s| - cap]
  }

  /** A cull splits the population into what it keeps and what it drops, and
      every dropped entry's key is at most every kept entry's key. */
  lemma CullDropsLowest<T>(s: seq<(T, real)>, cap: nat)
    ensures multiset(Cull(s, cap)) + multiset(Culled(s, cap)) == multiset(s)
    ensures forall i, j :: 0 <= i < |Culled(s, cap)| && 0 <= j < |Cull(s, cap)| ==>
              Culled(s, cap)[i].1 <= Cull(s, cap)[j].1
  {
    if |s| > cap {
      StableSortPermutes(s);
      StableSortSorts(s);
      SortedSplit(StableSort(s), |s| - cap);
    }
  }

  /** Cutting a sorted sequence in two: the halves together hold its
      entries, and no key of the head exceeds a key of the tail. */
  lemma SortedSplit<T>(t: seq<(T, real)>, n: nat)
    requires SortedByKey(t) && n <= |t|
    ensures multiset(t[..n]) + multiset(t[n..]) == multiset(t)
    ensures forall i, j :: 0 <= i < n && 0 <= j < |t| - n ==> t[..n][i].1 <= t[n..][j].1
  {
    assert t == t[..n] + t[n..];
    forall i, j | 0 <= i < n && 0 <= j < |t| - n
      ensures t[..n][i].1 <= t[n..][j].1
    {
      assert t[..n][i] == t[i];
      assert t[n..][j] == t[n + j];
    }
  }

  /** The entries of a sequence of keyed pairs, without their keys. */
  function Firsts<T>(r: seq<(T, real)>): (s: seq<T>)
    ensures |s| == |r| && forall i :: 0 <= i < |r| ==> s[i] == r[i].0
  {
    seq(|r|, i requires 0 <= i < |r| => r[i].0)
  }

  lemma FirstsSlices<T>(r: seq<(T, real)>, n: nat)
    requires n <= |r|
    ensures Firsts(r[..n]) == Firsts(r)[..n] && Firsts(r[n..]) == Firsts(r)[n..]
  {
  }

  /** A cull splits the population: whatever it keeps or drops comes from the
      population, and every entry is kept or dropped. */
  lemma CullPartition<T>(s: seq<(T, real)>, cap: nat)
    ensures forall x :: x in Cull(s, cap) ==> x in s
    ensures forall x :: x in Culled(s, cap) ==> x in s
    ensures forall x :: x in s ==> x in Cull(s, cap) || x in Culled(s, cap)
  {
    CullDropsLowest(s, cap);
    forall x | x in Cull(s, cap)
      ensures x in s
    {
      assert x in multiset(Cull(s, cap));
      assert multiset(s)[x] >= multiset(Cull(s, cap))[x] > 0;
    }
    forall x | x in Culled(s, cap)
      ensures x in s
    {
      assert x in multiset(Culled(s, cap));
      assert multiset(s)[x] >= multiset(Culled(s, cap))[x] > 0;
    }
    forall x | x in s
      ensures x in Cull(s, cap) || x in Culled(s, cap)
    {
      assert x in multiset(s);
    }
  }

  /** Entries drawn, without repetition, from a sequence whose entries are all
      different are themselves all different. */
  lemma FirstsDistinct<T>(s: seq<(T, real)>, r: seq<(T, real)>)
    requires Distinct(Firsts(s)) && multiset(r) <= multiset(s)
    ensures Distinct(Firsts(r))
  {
    assert Distinct(s) by {
      forall i, j | 0 <= i < j < |s| ensures s[i] != s[j] {
        assert Firsts(s)[i] != Firsts(s)[j];
      }
    }
    SubMultisetDistinct(s, r);
    forall i, j | 0 <= i < j < |r|
      ensures r[i].0 != r[j].0
    {
      assert r[i] in multiset(s) && r[j] in multiset(s);
      var k1 :| 0 <= k1 < |s| && s[k1] == r[i];
      var k2 :| 0 <= k2 < |s| && s[k2] == r[j];
      if k1 != k2 {
        assert Firsts(s)[k1] != Firsts(s)[k2];
      }
    }
  }

  /** The cull of a population whose entries are all different keeps and
      drops no entry twice. */
  lemma CullDistinctEntries<T>(s: seq<(T, real)>, cap: nat)
    requires Distinct(Firsts(s))
    ensures Distinct(Firsts(Cull(s, cap))) && Distinct(Firsts(Culled(s, cap)))
  {
    CullDropsLowest(s, cap);
    FirstsDistinct(s, Cull(s, cap));
    FirstsDistinct(s, Culled(s, cap));
  }

  /** Above the cap, without their keys, the cull keeps the tail of the
      sorted population and drops its head. */
  lemma CullFirstsSplit<T>(r: seq<(T, real)>, cap: nat)
    requires |r| > cap
    ensures var sorted := Firsts(StableSort(r));
            |sorted| == |r| &&
            Firsts(Cull(r, cap)) == sorted[|r| - cap..] && Firsts(Culled(r, cap)) == sorted[..|r| - cap]
  {
    FirstsSlices(StableSort(r), |r| - cap);
  }

  /** Without their keys, what a cull keeps or drops comes from the
      population, and every member of the population is kept or dropped. */
  lemma CullFirstsPartition<T>(r: seq<(T, real)>, cap: nat)
    ensures forall x :: x in Firsts(Cull(r, cap)) ==> x in Firsts(r)
    ensures forall x :: x in Firsts(Culled(r, cap)) ==> x in Firsts(r)
    ensures forall x :: x in Firsts(r) ==> x in Firsts(Cull(r, cap)) || x in Firsts(Culled(r, cap))
  {
    var kept := Cull(r, cap);
    var dropped := Culled(r, cap);
    CullPartition(r, cap);
    forall x | x in Firsts(kept)
      ensures x in Firsts(r)
    {
      var i :| 0 <= i < |kept| && Firsts(kept)[i] == x;
      assert kept[i] in kept;
      var k :| 0 <= k < |r| && r[k] == kept[i];
      assert Firsts(r)[k] == x;
    }
    forall x | x in Firsts(dropped)
      ensures x in Firsts(r)
    {
      var i :| 0 <= i < |dropped| && Firsts(dropped)[i] == x;
      assert dropped[i] in dropped;
      var k :| 0 <= k < |r| && r[k] == dropped[i];
      assert Firsts(r)[k] == x;
    }
    forall x | x in Firsts(r)
      ensures x in Firsts(kept) || x in Firsts(dropped)
    {
      var k :| 0 <= k < |r| && Firsts(r)[k] == x;
      assert r[k] in r;
      if r[k] in kept {
        var i :| 0 <= i < |kept| && kept[i] == r[k];
        assert Firsts(kept)[i] == x;
      } else {
        var i :| 0 <= i < |dropped| && dropped[i] == r[k];
        assert Firsts(dropped)[i] == x;
      }
    }
  }
}
