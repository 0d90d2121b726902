/** Sequence operations behind the deferred removals of every version:
    removing the first occurrence of a value (Python's `list.remove`), and
    dropping every listed value (a loop of such removals, or the web port's
    `filter` against a removal array). */
module Lists {

  /** No value occurs twice; populations and food lists keep this. */
  ghost predicate Distinct<T>(s: seq<T>) {
    forall i, j :: 0 <= i < j < |s| ==> s[i] != s[j]
  }

  /** The elements of `s` that do not occur in `r`, in their order in `s`. */
  function Without<T(==)>(s: seq<T>, r: seq<T>): (t: seq<T>)
    ensures |t| <= |s|
  {
    if s == [] then []
    else Without(s[..|s| - 1], r) + (if s[|s| - 1] in r then [] else [s[|s| - 1]])
  }

  /** A value survives the removal exactly when it is in the list and not
      listed for removal. */
  lemma {:induction false} WithoutMembers<T>(s: seq<T>, r: seq<T>, x: T)
    ensures x in Without(s, r) <==> x in s && x !in r
  {
    if s != [] {
      WithoutMembers(s[..|s| - 1], r, x);
      assert s == s[..|s| - 1] + [s[|s| - 1]];
    }
  }

  /** Python's `list.remove(x)` on a list known to hold `x`, extended to leave
      a list without `x` unchanged (the callers only remove after an
      `in` test). */
  function RemoveFirst<T(==)>(s: seq<T>, x: T): (t: seq<T>)
    ensures x !in s ==> t == s
    ensures multiset(t) == multiset(s) - multiset{x}
    ensures x in s ==> |t| == |s| - 1
  {
    if s == [] then []
    else
      assert s == [s[0]] + s[1..];
      if s[0] == x then s[1..] else [s[0]] + RemoveFirst(s[1..], x)
  }

  lemma {:induction false} WithoutNothing<T>(s: seq<T>)
    ensures Without(s, []) == s
  {
    if s != [] {
      WithoutNothing(s[..|s| - 1]);
      assert s == s[..|s| - 1] + [s[|s| - 1]];
    }
  }

  lemma WithoutSubset<T>(s: seq<T>, r: seq<T>)
    ensures forall x :: x in Without(s, r) ==> x in s
  {
    forall x | x in Without(s, r)
      ensures x in s
    {
      WithoutMembers(s, r, x);
    }
  }

  /** On a list without duplicates, removing the first occurrence of `x`
      removes every occurrence of it. */
  lemma {:induction false} RemoveFirstDistinct<T>(s: seq<T>, x: T)
    requires Distinct(s)
    ensures RemoveFirst(s, x) == Without(s, [x])
  {
    if s != [] {
      WithoutCons(s, [x]);
      var rest := s[1..];
      assert Distinct(rest) by {
        forall i, j | 0 <= i < j < |rest| ensures rest[i] != rest[j] {
          assert rest[i] == s[i + 1] && rest[j] == s[j + 1];
        }
      }
      if s[0] == x {
        assert x !in rest by {
          forall i | 0 <= i < |rest| ensures rest[i] != x {
            assert rest[i] == s[i + 1];
          }
        }
        WithoutAbsent(rest, [x]);
      } else {
        RemoveFirstDistinct(rest, x);
      }
    }
  }

  /** `Without` seen from the front of the list. */
  lemma {:induction false} WithoutCons<T>(s: seq<T>, r: seq<T>)
    requires s != []
    ensures Without(s, r) == (if s[0] in r then [] else [s[0]]) + Without(s[1..], r)
  {
    assert s == [s[0]] + s[1..];
    WithoutAppend([s[0]], s[1..], r);
    assert [s[0]][..0] == [];
  }

  /** Removing values a list does not hold leaves it unchanged. */
  lemma {:induction false} WithoutAbsent<T>(s: seq<T>, r: seq<T>)
    requires forall x :: x in r ==> x !in s
    ensures Without(s, r) == s
  {
    if s != [] {
      WithoutAbsent(s[..|s| - 1], r);
      assert s == s[..|s| - 1] + [s[|s| - 1]];
    }
  }

  /** Removing the listed values one after another is removing them all. */
  lemma {:induction false} WithoutSnoc<T>(s: seq<T>, r: seq<T>, x: T)
    ensures Without(Without(s, r), [x]) == Without(s, r + [x])
  {
    if s != [] {
      var init := s[..|s| - 1];
      var last := s[|s| - 1];
      WithoutSnoc(init, r, x);
      WithoutAppend(Without(init, r), if last in r then [] else [last], [x]);
    }
  }

  lemma {:induction false} WithoutAppend<T>(a: seq<T>, b: seq<T>, r: seq<T>)
    ensures Without(a + b, r) == Without(a, r) + Without(b, r)
  {
    if b != [] {
      var init := b[..|b| - 1];
      WithoutAppend(a, init, r);
      assert (a + b)[..|a + b| - 1] == a + init;
      assert (a + b)[|a + b| - 1] == b[|b| - 1];
    } else {
      assert a + b == a;
    }
  }

  /** Removing values keeps a list free of duplicates. */
  lemma {:induction false} WithoutDistinct<T>(s: seq<T>, r: seq<T>)
    requires Distinct(s)
    ensures Distinct(Without(s, r))
  {
    if s != [] {
      var init := s[..|s| - 1];
      var last := s[|s| - 1];
      assert Distinct(init);
      WithoutDistinct(init, r);
      assert last !in init;
      WithoutMembers(init, r, last);
    }
  }

  /** The removal loop: for each listed value still present, remove its first
      occurrence. On a duplicate-free list this drops exactly the listed
      values and keeps the order of the rest. */
  method RemoveListed<T(==)>(s: seq<T>, r: seq<T>) returns (t: seq<T>)
    requires Distinct(s)
    ensures t == Without(s, r)
    ensures Distinct(t)
  {
    t := s;
    WithoutNothing(s);
    for i := 0 to |r|
      invariant t == Without(s, r[..i])
    {
      RemoveStep(s, r, i);
      if r[i] in t {
        t := RemoveFirst(t, r[i]);
      }
    }
    assert r[..|r|] == r;
    WithoutDistinct(s, r);
  }

  /** One step of the removal loop: removing the next listed value from what
      the earlier steps left. */
  lemma {:induction false} RemoveStep<T>(s: seq<T>, r: seq<T>, i: nat)
    requires Distinct(s) && i < |r|
    ensures var t := Without(s, r[..i]);
            (if r[i] in t then RemoveFirst(t, r[i]) else t) == Without(s, r[..i + 1])
  {
    assert r[..i + 1] == r[..i] + [r[i]];
    var t := Without(s, r[..i]);
    WithoutDistinct(s, r[..i]);
    if r[i] in t {
      RemoveFirstDistinct(t, r[i]);
    } else {
      WithoutAbsent(t, [r[i]]);
    }
    WithoutSnoc(s, r[..i], r[i]);
  }

  /** A value occurs at most once in a list without duplicates. */
  lemma {:induction false} DistinctCount<T>(s: seq<T>, x: T)
    requires Distinct(s)
    ensures multiset(s)[x] <= 1
  {
    if s != [] {
      var init := s[..|s| - 1];
      assert s == init + [s[|s| - 1]];
      assert Distinct(init);
      DistinctCount(init, x);
      if s[|s| - 1] == x {
        assert x !in init;
      }
    }
  }

  /** A value found at two positions occurs at least twice. */
  lemma RepeatCount<T>(s: seq<T>, i: nat, j: nat)
    requires i < j < |s| && s[i] == s[j]
    ensures multiset(s)[s[i]] >= 2
  {
    assert s == s[..j] + [s[j]] + s[j + 1..];
    assert s[i] in s[..j];
  }

  /** Whatever holds no value more often than a duplicate-free list holds
      it is itself free of duplicates (in particular any permutation). */
  lemma SubMultisetDistinct<T>(a: seq<T>, b: seq<T>)
    requires multiset(b) <= multiset(a) && Distinct(a)
    ensures Distinct(b)
  {
    forall i, j | 0 <= i < j < |b|
      ensures b[i] != b[j]
    {
      DistinctCount(a, b[i]);
      if b[i] == b[j] {
        RepeatCount(b, i, j);
        assert false;
      }
    }
  }

  /** Joining two duplicate-free lists with no value in common. */
  lemma DistinctConcat<T>(a: seq<T>, b: seq<T>)
    requires Distinct(a) && Distinct(b)
    requires forall x :: x in b ==> x !in a
    ensures Distinct(a + b)
  {
    forall i, j | 0 <= i < j < |a + b|
      ensures (a + b)[i] != (a + b)[j]
    {
      if j >= |a| && i < |a| {
        assert (a + b)[j] == b[j - |a|] && (a + b)[j] in b;
      } else if i >= |a| {
        assert (a + b)[i] == b[i - |a|] && (a + b)[j] == b[j - |a|];
      }
    }
  }
}
