/** Folds and filters over sequences, shared by the balance computations, the listings and the
    feed. Both are defined from the back, the way a front-to-back loop builds them. */
module Sequences {

  /** Sum of `f` over `s`. */
  function SumOf<T>(s: seq<T>, f: T -> int): int
    decreases |s|
  {
    if s == [] then 0 else SumOf(s[..|s| - 1], f) + f(s[|s| - 1])
  }

  /** The elements of `s` that satisfy `p`, in order. */
  function Filter<T>(s: seq<T>, p: T -> bool): (r: seq<T>)
    ensures |r| <= |s|
    ensures forall i :: 0 <= i < |r| ==> r[i] in s && p(r[i])
    ensures forall x :: x in s && p(x) ==> x in r
    decreases |s|
  {
    if s == [] then []
    else Filter(s[..|s| - 1], p) + (if p(s[|s| - 1]) then [s[|s| - 1]] else [])
  }

  /** One more loop iteration adds one more term. */
  lemma SumOfStep<T>(s: seq<T>, i: int, f: T -> int)
    requires 0 <= i < |s|
    ensures SumOf(s[..i + 1], f) == SumOf(s[..i], f) + f(s[i])
  {
    assert s[..i + 1][..i] == s[..i];
  }

  lemma {:induction false} SumOfConcat<T>(a: seq<T>, b: seq<T>, f: T -> int)
    ensures SumOf(a + b, f) == SumOf(a, f) + SumOf(b, f)
    decreases |b|
  {
    if b != [] {
      assert (a + b)[..|a + b| - 1] == a + b[..|b| - 1];
      SumOfConcat(a, b[..|b| - 1], f);
    } else {
      assert a + b == a;
    }
  }

  /** Removing the element at `i` takes its term out of the sum. */
  lemma SumOfRemove<T>(s: seq<T>, i: int, f: T -> int)
    requires 0 <= i < |s|
    ensures SumOf(s, f) == SumOf(s[..i] + s[i + 1..], f) + f(s[i])
  {
    var front, back := s[..i], s[i + 1..];
    assert s == s[..i + 1] + back;
    SumOfStep(s, i, f);
    SumOfConcat(s[..i + 1], back, f);
    SumOfConcat(front, back, f);
  }

  /** A sum does not depend on the order of its terms. */
  lemma {:induction false} SumOfPermutation<T>(a: seq<T>, b: seq<T>, f: T -> int)
    requires multiset(a) == multiset(b)
    ensures SumOf(a, f) == SumOf(b, f)
    decreases |a|
  {
    if a != [] {
      var x := a[|a| - 1];
      assert x in multiset(b);
      var i :| 0 <= i < |b| && b[i] == x;
      var a' := a[..|a| - 1];
      var b' := b[..i] + b[i + 1..];
      assert a == a' + [x];
      assert b == b[..i] + [x] + b[i + 1..];
      assert multiset(a') == multiset(a) - multiset{x};
      assert multiset(b') == multiset(b) - multiset{x};
      SumOfPermutation(a', b', f);
      SumOfRemove(b, i, f);
    } else {
      assert |b| == |multiset(b)| == 0;
    }
  }

  /** Removing the element at `k` shifts the later elements down by one and takes one copy of
      it out of the multiset. */
  lemma RemoveAt<T>(s: seq<T>, k: int)
    requires 0 <= k < |s|
    ensures var t := s[..k] + s[k + 1..];
      && |t| == |s| - 1
      && (forall j :: 0 <= j < |t| ==> t[j] == s[if j < k then j else j + 1])
      && multiset(s) == multiset(t) + multiset{s[k]}
  {
    assert s == s[..k] + [s[k]] + s[k + 1..];
  }

  /** Taking one copy of the same element out of two permutations of each other leaves
      permutations of each other. */
  lemma PermutationRemove<T>(a: seq<T>, b: seq<T>, k: int, n: int)
    requires multiset(a) == multiset(b) && 0 <= k < |a| && 0 <= n < |b| && a[k] == b[n]
    ensures multiset(a[..k] + a[k + 1..]) == multiset(b[..n] + b[n + 1..])
  {
    RemoveAt(a, k);
    RemoveAt(b, n);
    assert multiset(a[..k] + a[k + 1..]) == multiset(a) - multiset{a[k]};
  }

  /** Images of permutations are permutations: when `ra` and `rb` give each element of `a` and
      `b` the same image wherever the two sequences hold the same element, reordering the
      elements reorders the images. */
  lemma {:induction false} ImagesPermutation<T, U>(a: seq<T>, b: seq<T>, ra: seq<U>, rb: seq<U>)
    requires multiset(a) == multiset(b)
    requires |ra| == |a| && |rb| == |b|
    requires forall i, j :: 0 <= i < |a| && 0 <= j < |b| && a[i] == b[j] ==> ra[i] == rb[j]
    ensures multiset(ra) == multiset(rb)
    decreases |a|
  {
    if a != [] {
      var n := |a| - 1;
      assert a[n] in multiset(b);
      var k :| 0 <= k < |b| && b[k] == a[n];
      PermutationRemove(a, b, n, k);
      RemoveAt(a, n);
      RemoveAt(ra, n);
      RemoveAt(b, k);
      RemoveAt(rb, k);
      var a', ra' := a[..n] + a[n + 1..], ra[..n] + ra[n + 1..];
      var b', rb' := b[..k] + b[k + 1..], rb[..k] + rb[k + 1..];
      ImagesPermutation(a', b', ra', rb');
    } else {
      assert |b| == |multiset(b)| == 0;
    }
  }

  /** Pairwise distinct keys: no two positions of `s` hold elements with the same key. */
  ghost predicate DistinctKeys<T, K>(s: seq<T>, key: T -> K) {
    forall i, j :: 0 <= i < j < |s| ==> key(s[i]) != key(s[j])
  }

  /** Removing an element keeps the keys distinct, and no remaining element shares its key. */
  lemma DistinctKeysRemoveAt<T, K>(s: seq<T>, k: int, key: T -> K)
    requires 0 <= k < |s| && DistinctKeys(s, key)
    ensures DistinctKeys(s[..k] + s[k + 1..], key)
    ensures forall x :: x in s[..k] + s[k + 1..] ==> key(x) != key(s[k])
  {
    var t := s[..k] + s[k + 1..];
    RemoveAt(s, k);
    forall i, j | 0 <= i < j < |t|
      ensures key(t[i]) != key(t[j])
    {
      assert t[i] == s[if i < k then i else i + 1] && t[j] == s[if j < k then j else j + 1];
    }
    forall x | x in t
      ensures key(x) != key(s[k])
    {
      var m :| 0 <= m < |t| && t[m] == x;
      assert t[m] == s[if m < k then m else m + 1];
    }
  }

  /** Appending an element whose key no element has keeps the keys distinct. */
  lemma DistinctKeysSnoc<T, K>(s: seq<T>, x: T, key: T -> K)
    requires DistinctKeys(s, key) && forall y :: y in s ==> key(y) != key(x)
    ensures DistinctKeys(s + [x], key)
  {
    var t := s + [x];
    forall i, j | 0 <= i < j < |t|
      ensures key(t[i]) != key(t[j])
    {
      assert t[i] == s[i] && t[i] in s;
    }
  }

  /** Reordering a sequence whose elements have pairwise distinct keys keeps them distinct. */
  lemma {:induction false} DistinctKeysPermutation<T, K>(a: seq<T>, b: seq<T>, key: T -> K)
    requires multiset(a) == multiset(b) && DistinctKeys(a, key)
    ensures DistinctKeys(b, key)
    decreases |b|
  {
    if b != [] {
      var n := |b| - 1;
      assert b[n] in multiset(a);
      var k :| 0 <= k < |a| && a[k] == b[n];
      DistinctKeysRemoveAt(a, k, key);
      var a', b' := a[..k] + a[k + 1..], b[..n];
      PermutationRemove(a, b, k, n);
      DistinctKeysPermutation(a', b', key);
      forall y | y in b'
        ensures key(y) != key(b[n])
      {
        assert y in multiset(a');
      }
      DistinctKeysSnoc(b', b[n], key);
    }
  }

  /** Filtering keeps every occurrence of a satisfying element and none of the others. */
  lemma {:induction false} FilterCounts<T>(s: seq<T>, p: T -> bool, x: T)
    ensures multiset(Filter(s, p))[x] == if p(x) then multiset(s)[x] else 0
    decreases |s|
  {
    if s != [] {
      var init := s[..|s| - 1];
      FilterCounts(init, p, x);
      assert s == init + [s[|s| - 1]];
    }
  }

  /** Filters of permutations are permutations. */
  lemma FilterPermutation<T>(a: seq<T>, b: seq<T>, p: T -> bool)
    requires multiset(a) == multiset(b)
    ensures multiset(Filter(a, p)) == multiset(Filter(b, p))
  {
    forall x
      ensures multiset(Filter(a, p))[x] == multiset(Filter(b, p))[x]
    {
      FilterCounts(a, p, x);
      FilterCounts(b, p, x);
    }
  }

  /** Summing over the filtered sequence is summing the terms that satisfy `p`, the others
      counting zero. */
  lemma {:induction false} SumOfFilter<T>(s: seq<T>, p: T -> bool, f: T -> int, g: T -> int)
    requires forall x :: g(x) == (if p(x) then f(x) else 0)
    ensures SumOf(Filter(s, p), f) == SumOf(s, g)
    decreases |s|
  {
    if s != [] {
      var init := s[..|s| - 1];
      var last := s[|s| - 1];
      SumOfFilter(init, p, f, g);
      SumOfConcat(Filter(init, p), if p(last) then [last] else [], f);
    }
  }

  /** Sums are linear: a termwise difference sums to the difference of the sums. */
  lemma {:induction false} SumOfDifference<T>(s: seq<T>, f: T -> int, g: T -> int, h: T -> int)
    requires forall x :: f(x) == g(x) - h(x)
    ensures SumOf(s, f) == SumOf(s, g) - SumOf(s, h)
    decreases |s|
  {
    if s != [] {
      SumOfDifference(s[..|s| - 1], f, g, h);
    }
  }
}
