/** The ordering every listing and the feed apply: a stable sort by an integer key, which is
    what the standard library's `sort_by_key` promises, followed by a reversal. Together they
    give a non-increasing order in which entries with equal keys appear in reverse input order.
    The sort is written as an insertion sort; any stable sort yields the same sequence. */
module Sorting {
  import opened Sequences

  predicate SortedBy<T>(s: seq<T>, key: T -> int) {
    forall i, j :: 0 <= i < j < |s| ==> key(s[i]) <= key(s[j])
  }

  predicate DescendingBy<T>(s: seq<T>, key: T -> int) {
    forall i, j :: 0 <= i < j < |s| ==> key(s[i]) >= key(s[j])
  }

  /** The elements whose key is `k`. */
  function HasKey<T>(key: T -> int, k: int): T -> bool {
    x => key(x) == k
  }

  function Reverse<T>(s: seq<T>): (r: seq<T>)
    ensures |r| == |s|
    ensures forall i :: 0 <= i < |s| ==> r[i] == s[|s| - 1 - i]
    ensures multiset(r) == multiset(s)
    decreases |s|
  {
    if s == [] then []
    else
      assert s == s[..|s| - 1] + [s[|s| - 1]];
      [s[|s| - 1]] + Reverse(s[..|s| - 1])
  }

  /** Places `x` after every element of `s` whose key does not exceed its own; in a sorted
      sequence that is after its equals and before everything larger. */
  function InsertByKey<T>(s: seq<T>, x: T, key: T -> int): (r: seq<T>)
    ensures multiset(r) == multiset(s) + multiset{x}
    decreases |s|
  {
    if s == [] || key(s[|s| - 1]) <= key(x) then s + [x]
    else
      assert s == s[..|s| - 1] + [s[|s| - 1]];
      InsertByKey(s[..|s| - 1], x, key) + [s[|s| - 1]]
  }

  /** Appending an element no smaller than everything before it keeps a sequence sorted. */
  lemma SortedAppend<T>(s: seq<T>, z: T, key: T -> int)
    requires SortedBy(s, key)
    requires forall i :: 0 <= i < |s| ==> key(s[i]) <= key(z)
    ensures SortedBy(s + [z], key)
  {
  }

  /** An insertion into a sorted sequence leaves it sorted. */
  lemma {:induction false} InsertSorted<T>(s: seq<T>, x: T, key: T -> int)
    requires SortedBy(s, key)
    ensures SortedBy(InsertByKey(s, x, key), key)
    decreases |s|
  {
    if s == [] || key(s[|s| - 1]) <= key(x) {
      SortedAppend(s, x, key);
    } else {
      var init := s[..|s| - 1];
      var last := s[|s| - 1];
      var front := InsertByKey(init, x, key);
      InsertSorted(init, x, key);
      forall i | 0 <= i < |front|
        ensures key(front[i]) <= key(last)
      {
        assert front[i] in multiset(front);
        if front[i] != x {
          assert front[i] in multiset(init);
          var j :| 0 <= j < |init| && init[j] == front[i];
          assert s[j] == init[j];
        }
      }
      SortedAppend(front, last, key);
    }
  }

  /** `sort_by_key`: the elements of `s` in non-decreasing key order. */
  function SortByKey<T>(s: seq<T>, key: T -> int): (r: seq<T>)
    ensures multiset(r) == multiset(s)
    ensures SortedBy(r, key)
    decreases |s|
  {
    if s == [] then []
    else
      var init := SortByKey(s[..|s| - 1], key);
      assert s == s[..|s| - 1] + [s[|s| - 1]];
      InsertSorted(init, s[|s| - 1], key);
      InsertByKey(init, s[|s| - 1], key)
  }

  lemma {:induction false} FilterConcat<T>(a: seq<T>, b: seq<T>, p: T -> bool)
    ensures Filter(a + b, p) == Filter(a, p) + Filter(b, p)
    decreases |b|
  {
    if b == [] {
      assert a + b == a;
    } else {
      var init := b[..|b| - 1];
      assert (a + b)[..|a + b| - 1] == a + init;
      FilterConcat(a, init, p);
    }
  }

  lemma FilterSingleton<T>(x: T, p: T -> bool)
    ensures Filter([x], p) == if p(x) then [x] else []
  {
    assert [x][..0] == [];
  }

  /** Inserting `x` only adds `x`, at the end, to the elements that share its key. */
  lemma {:induction false} InsertKeepsEqualKeys<T>(s: seq<T>, x: T, key: T -> int, k: int)
    ensures Filter(InsertByKey(s, x, key), HasKey(key, k))
         == Filter(s, HasKey(key, k)) + (if key(x) == k then [x] else [])
    decreases |s|
  {
    var p := HasKey(key, k);
    if s == [] || key(s[|s| - 1]) <= key(x) {
      FilterConcat(s, [x], p);
      FilterSingleton(x, p);
    } else {
      var init := s[..|s| - 1];
      var last := s[|s| - 1];
      assert s == init + [last];
      var front := InsertByKey(init, x, key);
      assert InsertByKey(s, x, key) == front + [last];
      InsertKeepsEqualKeys(init, x, key, k);
      FilterConcat(front, [last], p);
      FilterConcat(init, [last], p);
      FilterSingleton(last, p);
      FilterSingleton(x, p);
      // `last` sorts after `x`, so at most one of them has the key `k`
      Interchange(Filter(init, p), Filter([x], p), Filter([last], p));
    }
  }

  /** Concatenation commutes when one of the two parts is empty. */
  lemma Interchange<T>(a: seq<T>, b: seq<T>, c: seq<T>)
    requires b == [] || c == []
    ensures a + b + c == a + c + b
  {
  }

  /** The sort is stable: the elements sharing any one key keep their relative order. */
  lemma {:induction false} SortIsStable<T>(s: seq<T>, key: T -> int, k: int)
    ensures Filter(SortByKey(s, key), HasKey(key, k)) == Filter(s, HasKey(key, k))
    decreases |s|
  {
    if s != [] {
      var init := s[..|s| - 1];
      SortIsStable(init, key, k);
      InsertKeepsEqualKeys(SortByKey(init, key), s[|s| - 1], key, k);
    }
  }

  lemma ReverseConcat<T>(a: seq<T>, b: seq<T>)
    ensures Reverse(a + b) == Reverse(b) + Reverse(a)
  {
    var l, r := Reverse(a + b), Reverse(b) + Reverse(a);
    assert |l| == |r|;
    forall i | 0 <= i < |l|
      ensures l[i] == r[i]
    {
      if i < |b| {
        assert l[i] == (a + b)[|a| + |b| - 1 - i];
      } else {
        assert l[i] == (a + b)[|a| + |b| - 1 - i];
      }
    }
  }

  /** Reversing reverses the order within every filtered class. */
  lemma {:induction false} FilterReverse<T>(s: seq<T>, p: T -> bool)
    ensures Filter(Reverse(s), p) == Reverse(Filter(s, p))
    decreases |s|
  {
    if s != [] {
      var init := s[..|s| - 1];
      var last := s[|s| - 1];
      var tail := if p(last) then [last] else [];
      FilterReverse(init, p);
      FilterConcat([last], Reverse(init), p);
      FilterSingleton(last, p);
      ReverseConcat(Filter(init, p), tail);
      assert Reverse(tail) == tail;
    }
  }

  /** The listings' order: a stable sort by `key` followed by a reversal. The result is a
      permutation of `s` in non-increasing key order, in which the elements of every key appear
      in the reverse of their order in `s`. */
  function NewestFirst<T>(s: seq<T>, key: T -> int): (r: seq<T>)
    ensures multiset(r) == multiset(s) && |r| == |s|
    ensures DescendingBy(r, key)
    ensures forall k :: Filter(r, HasKey(key, k)) == Reverse(Filter(s, HasKey(key, k)))
  {
    var sorted := SortByKey(s, key);
    assert |sorted| == |s| by {
      assert |multiset(sorted)| == |multiset(s)|;
    }
    NewestFirstStable(s, key);
    Reverse(sorted)
  }

  lemma NewestFirstStable<T>(s: seq<T>, key: T -> int)
    ensures forall k :: Filter(Reverse(SortByKey(s, key)), HasKey(key, k))
                     == Reverse(Filter(s, HasKey(key, k)))
  {
    forall k
      ensures Filter(Reverse(SortByKey(s, key)), HasKey(key, k)) == Reverse(Filter(s, HasKey(key, k)))
    {
      FilterReverse(SortByKey(s, key), HasKey(key, k));
      SortIsStable(s, key, k);
    }
  }
}
