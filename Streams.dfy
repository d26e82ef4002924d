/** The java.util.stream operations the queries are built from, on finite ordered
    (sequential) streams, which are modelled as sequences. */
module Streams {
  import opened Wrappers

  function Min(a: int, b: int): int
  {
    if a <= b then a else b
  }

  // ---------------------------------------------------------------------------
  // Positions and orders

  /** Position of the first occurrence of `x` in `xs`, or |xs| when `x` does not occur. */
  function IndexOf<T(==,!new)>(xs: seq<T>, x: T): (i: nat)
    ensures i <= |xs|
    ensures i < |xs| <==> x in xs
    ensures i < |xs| ==> xs[i] == x
    ensures forall k :: 0 <= k < i ==> xs[k] != x
  {
    if |xs| == 0 then 0
    else if xs[0] == x then 0
    else 1 + IndexOf(xs[1..], x)
  }

  lemma IndexOfAppend<T(!new)>(xs: seq<T>, y: T, x: T)
    requires x in xs
    ensures IndexOf(xs + [y], x) == IndexOf(xs, x)
  {
    var i, j := IndexOf(xs, x), IndexOf(xs + [y], x);
    assert (xs + [y])[i] == x;
    if j < i {
      assert xs[j] == (xs + [y])[j];
    }
  }

  /** No two positions of `r` hold equal values. */
  ghost predicate NoDuplicates<T(!new)>(r: seq<T>)
  {
    forall i, j :: 0 <= i < j < |r| ==> r[i] != r[j]
  }

  /** The elements of `r` are ordered by where they first occur in `xs`. Strictness
      makes `r` free of duplicates. */
  ghost predicate InFirstOccurrenceOrder<T(!new)>(r: seq<T>, xs: seq<T>)
  {
    forall i, j :: 0 <= i < j < |r| ==> IndexOf(xs, r[i]) < IndexOf(xs, r[j])
  }

  lemma HeadComesFirst<T(!new)>(r: seq<T>, xs: seq<T>, y: T)
    requires InFirstOccurrenceOrder(r, xs)
    requires y in r
    ensures IndexOf(xs, r[0]) <= IndexOf(xs, y)
  {
    var k :| 0 <= k < |r| && r[k] == y;
    if k > 0 {
      assert IndexOf(xs, r[0]) < IndexOf(xs, r[k]);
    }
  }

  /** Two sequences with the same elements, both in first-occurrence order of `xs`,
      are equal: the order characterises the sequence. */
  lemma {:induction false} FirstOccurrenceOrderUnique<T(!new)>(r1: seq<T>, r2: seq<T>, xs: seq<T>)
    requires forall x :: x in r1 <==> x in r2
    requires InFirstOccurrenceOrder(r1, xs) && InFirstOccurrenceOrder(r2, xs)
    ensures r1 == r2
    decreases |r1|
  {
    assert |r1| > 0 ==> r1[0] in r2;
    assert |r2| > 0 ==> r2[0] in r1;
    if |r1| > 0 {
      HeadComesFirst(r1, xs, r2[0]);
      HeadComesFirst(r2, xs, r1[0]);
      var j :| 0 <= j < |r2| && r2[j] == r1[0];
      assert IndexOf(xs, r2[j]) == IndexOf(xs, r2[0]);
      assert j == 0;
      var t1, t2 := r1[1..], r2[1..];
      forall x
        ensures x in t1 <==> x in t2
      {
        if x in t1 {
          var k :| 0 <= k < |t1| && t1[k] == x;
          assert r1[k + 1] == x;
          assert IndexOf(xs, r1[0]) < IndexOf(xs, r1[k + 1]);
          assert x in r2 && x != r2[0];
        }
        if x in t2 {
          var k :| 0 <= k < |t2| && t2[k] == x;
          assert r2[k + 1] == x;
          assert IndexOf(xs, r2[0]) < IndexOf(xs, r2[k + 1]);
          assert x in r1 && x != r1[0];
        }
      }
      FirstOccurrenceOrderUnique(t1, t2, xs);
      assert r1 == [r1[0]] + t1;
      assert r2 == [r2[0]] + t2;
    }
  }

  // ---------------------------------------------------------------------------
  // Stream.distinct and Stream.filter

  lemma OrderExtends<T(!new)>(r: seq<T>, p: seq<T>, x: T)
    requires forall y :: y in r ==> y in p
    requires InFirstOccurrenceOrder(r, p)
    ensures InFirstOccurrenceOrder(r, p + [x])
    ensures x !in p ==> InFirstOccurrenceOrder(r + [x], p + [x])
  {
    forall y | y in r
      ensures IndexOf(p + [x], y) == IndexOf(p, y) < |p|
    {
      IndexOfAppend(p, x, y);
    }
    if x !in p {
      assert (p + [x])[|p|] == x;
      assert IndexOf(p + [x], x) == |p|;
      var r' := r + [x];
      forall i, j | 0 <= i < j < |r'|
        ensures IndexOf(p + [x], r'[i]) < IndexOf(p + [x], r'[j])
      {
        assert r'[i] == r[i];
        if j < |r| {
          assert r'[j] == r[j];
        }
      }
    }
  }

  /** Stream.distinct on an ordered stream: the first occurrence of each value, in
      encounter order. */
  function Distinct<T(==,!new)>(xs: seq<T>): (r: seq<T>)
    ensures forall x :: x in r <==> x in xs
    ensures |r| <= |xs|
    ensures InFirstOccurrenceOrder(r, xs)
    ensures NoDuplicates(r)
  {
    if |xs| == 0 then []
    else
      var p, x := xs[..|xs| - 1], xs[|xs| - 1];
      var d := Distinct(p);
      assert xs == p + [x];
      OrderExtends(d, p, x);
      if x in d then d else d + [x]
  }

  /** Stream.filter: the elements satisfying `p`, in encounter order. */
  function Filter<T(!new)>(xs: seq<T>, p: T -> bool): (r: seq<T>)
    ensures |r| <= |xs|
    ensures forall x :: x in r <==> x in xs && p(x)
  {
    if |xs| == 0 then []
    else if p(xs[0]) then [xs[0]] + Filter(xs[1..], p)
    else Filter(xs[1..], p)
  }

  lemma {:induction false} FilterKeepsOrder<T(!new)>(xs: seq<T>, p: T -> bool, ref: seq<T>)
    requires InFirstOccurrenceOrder(xs, ref)
    ensures InFirstOccurrenceOrder(Filter(xs, p), ref)
  {
    if |xs| > 0 {
      var t := xs[1..];
      assert InFirstOccurrenceOrder(t, ref) by {
        forall i, j | 0 <= i < j < |t|
          ensures IndexOf(ref, t[i]) < IndexOf(ref, t[j])
        {
          assert t[i] == xs[i + 1] && t[j] == xs[j + 1];
        }
      }
      FilterKeepsOrder(t, p, ref);
      if p(xs[0]) {
        var f := Filter(t, p);
        var r := [xs[0]] + f;
        forall i, j | 0 <= i < j < |r|
          ensures IndexOf(ref, r[i]) < IndexOf(ref, r[j])
        {
          if i == 0 {
            assert r[j] == f[j - 1] && f[j - 1] in t;
            var k :| 0 <= k < |t| && t[k] == f[j - 1];
            assert xs[k + 1] == r[j];
          } else {
            assert r[i] == f[i - 1] && r[j] == f[j - 1];
          }
        }
      }
    }
  }

  /** `r` holds exactly the elements of `xs` satisfying `p`, each once, in the order
      of their first occurrence in `xs`: the result of `distinct().filter(p)`. */
  ghost predicate IsDistinctFilter<T(!new)>(r: seq<T>, xs: seq<T>, p: T -> bool)
  {
    && (forall x :: x in r <==> x in xs && p(x))
    && InFirstOccurrenceOrder(r, xs)
  }

  /** `distinct().filter(p)` meets its characterisation, and only one sequence does. */
  lemma DistinctFilterCharacterised<T(!new)>(xs: seq<T>, p: T -> bool)
    ensures IsDistinctFilter(Filter(Distinct(xs), p), xs, p)
    ensures forall other :: IsDistinctFilter(other, xs, p) ==> other == Filter(Distinct(xs), p)
  {
    var r := Filter(Distinct(xs), p);
    FilterKeepsOrder(Distinct(xs), p, xs);
    forall other | IsDistinctFilter(other, xs, p)
      ensures other == r
    {
      FirstOccurrenceOrderUnique(other, r, xs);
    }
  }

  // ---------------------------------------------------------------------------
  // Stream.map

  /** Stream.map(f): `f` applied to each element, in order. */
  function Map<T(!new), U(!new)>(xs: seq<T>, f: T -> U): (r: seq<U>)
    ensures |r| == |xs|
    ensures forall i :: 0 <= i < |xs| ==> r[i] == f(xs[i])
  {
    if |xs| == 0 then [] else [f(xs[0])] + Map(xs[1..], f)
  }

  lemma MapMembers<T(!new), U(!new)>(xs: seq<T>, f: T -> U)
    ensures forall y :: y in Map(xs, f) ==> exists x :: x in xs && y == f(x)
    ensures forall x :: x in xs ==> f(x) in Map(xs, f)
  {
    var r := Map(xs, f);
    forall y | y in r
      ensures exists x :: x in xs && y == f(x)
    {
      var i :| 0 <= i < |r| && r[i] == y;
      assert xs[i] in xs;
    }
    forall x | x in xs
      ensures f(x) in r
    {
      var i :| 0 <= i < |xs| && xs[i] == x;
      assert r[i] == f(x);
    }
  }

  // ---------------------------------------------------------------------------
  // Stream.flatMap(Collection::stream)

  /** The number of elements of all inner sequences together. */
  function TotalSize<T>(xss: seq<seq<T>>): nat
  {
    if |xss| == 0 then 0 else |xss[0]| + TotalSize(xss[1..])
  }

  /** Concatenation of the inner sequences, in order. */
  function Flatten<T(!new)>(xss: seq<seq<T>>): (r: seq<T>)
    ensures |r| == TotalSize(xss)
    ensures forall x :: x in r <==> exists i :: 0 <= i < |xss| && x in xss[i]
  {
    if |xss| == 0 then []
    else
      var t := Flatten(xss[1..]);
      assert forall i :: 1 <= i < |xss| ==> xss[1..][i - 1] == xss[i];
      xss[0] + t
  }

  // ---------------------------------------------------------------------------
  // Stream.sorted with a descending integer key: a stable sort

  /** Keys never increase from left to right. */
  ghost predicate NonIncreasing<T(!new)>(r: seq<T>, key: T -> int)
  {
    forall i, j :: 0 <= i < j < |r| ==> key(r[i]) >= key(r[j])
  }

  /** Elements with equal keys appear in the order of their first occurrence in `ref`. */
  ghost predicate TiesInOrder<T(!new)>(r: seq<T>, ref: seq<T>, key: T -> int)
  {
    forall i, j :: 0 <= i < j < |r| && key(r[i]) == key(r[j]) ==> IndexOf(ref, r[i]) < IndexOf(ref, r[j])
  }

  /** Puts `x` in front of the first element whose key is not greater than its own. */
  function InsertDescending<T(!new)>(x: T, s: seq<T>, key: T -> int): (r: seq<T>)
    ensures multiset(r) == multiset(s) + multiset{x}
  {
    if |s| == 0 then [x]
    else if key(x) >= key(s[0]) then [x] + s
    else
      assert s == [s[0]] + s[1..];
      [s[0]] + InsertDescending(x, s[1..], key)
  }

  lemma NonIncreasingCons<T(!new)>(h: T, t: seq<T>, key: T -> int)
    requires NonIncreasing(t, key)
    requires forall y :: y in t ==> key(h) >= key(y)
    ensures NonIncreasing([h] + t, key)
  {
    var r := [h] + t;
    forall i, j | 0 <= i < j < |r|
      ensures key(r[i]) >= key(r[j])
    {
      assert r[j] == t[j - 1] && t[j - 1] in t;
      if i > 0 {
        assert r[i] == t[i - 1];
      }
    }
  }

  lemma {:induction false} InsertKeepsNonIncreasing<T(!new)>(x: T, s: seq<T>, key: T -> int)
    requires NonIncreasing(s, key)
    ensures NonIncreasing(InsertDescending(x, s, key), key)
  {
    if |s| == 0 {
    } else if key(x) >= key(s[0]) {
      forall y | y in s
        ensures key(x) >= key(y)
      {
        var k :| 0 <= k < |s| && s[k] == y;
        assert k == 0 || key(s[0]) >= key(s[k]);
      }
      NonIncreasingCons(x, s, key);
    } else {
      var u := s[1..];
      assert NonIncreasing(u, key) by {
        forall i, j | 0 <= i < j < |u|
          ensures key(u[i]) >= key(u[j])
        {
          assert u[i] == s[i + 1] && u[j] == s[j + 1];
        }
      }
      InsertKeepsNonIncreasing(x, u, key);
      var t := InsertDescending(x, u, key);
      forall y | y in t
        ensures key(s[0]) >= key(y)
      {
        InsertedElement(x, u, key, y);
        if y != x {
          var k :| 0 <= k < |u| && u[k] == y;
          assert s[k + 1] == y;
        }
      }
      NonIncreasingCons(s[0], t, key);
    }
  }

  /** Stream.sorted(Comparator.comparingInt(key).reversed()): insertion sort, highest key first. */
  function SortDescending<T(!new)>(xs: seq<T>, key: T -> int): (r: seq<T>)
    ensures multiset(r) == multiset(xs)
    ensures NonIncreasing(r, key)
  {
    if |xs| == 0 then []
    else
      var s := SortDescending(xs[1..], key);
      assert xs == [xs[0]] + xs[1..];
      InsertKeepsNonIncreasing(xs[0], s, key);
      InsertDescending(xs[0], s, key)
  }

  lemma {:induction false} NoDuplicatesCountsOnce<T(!new)>(s: seq<T>, v: T)
    requires NoDuplicates(s)
    ensures multiset(s)[v] <= 1
  {
    if |s| > 0 {
      var t := s[1..];
      assert s == [s[0]] + t;
      assert NoDuplicates(t) by {
        forall i, j | 0 <= i < j < |t|
          ensures t[i] != t[j]
        {
          assert t[i] == s[i + 1] && t[j] == s[j + 1];
        }
      }
      NoDuplicatesCountsOnce(t, v);
      if s[0] == v {
        forall k | 0 <= k < |t|
          ensures t[k] != v
        {
          assert t[k] == s[k + 1];
        }
        assert multiset(t)[v] == 0;
      }
    }
  }

  lemma RepeatCountsTwice<T(!new)>(s: seq<T>, i: nat, j: nat)
    requires i < j < |s| && s[i] == s[j]
    ensures multiset(s)[s[i]] >= 2
  {
    assert s == s[..j] + [s[j]] + s[j + 1..];
    assert s[i] == s[..j][i];
  }

  /** A permutation has the same length, the same elements, and no duplicates when the
      original has none. */
  lemma PermutationFacts<T(!new)>(a: seq<T>, b: seq<T>)
    requires multiset(a) == multiset(b)
    ensures |a| == |b|
    ensures forall x :: x in a <==> x in b
    ensures NoDuplicates(b) ==> NoDuplicates(a)
  {
    assert |a| == |multiset(a)| == |multiset(b)| == |b|;
    assert forall x :: x in a <==> x in multiset(a);
    assert forall x :: x in b <==> x in multiset(b);
    if NoDuplicates(b) {
      forall i, j | 0 <= i < j < |a|
        ensures a[i] != a[j]
      {
        if a[i] == a[j] {
          RepeatCountsTwice(a, i, j);
          NoDuplicatesCountsOnce(b, a[i]);
        }
      }
    }
  }

  lemma InsertedElement<T(!new)>(x: T, s: seq<T>, key: T -> int, y: T)
    requires y in InsertDescending(x, s, key)
    ensures y == x || y in s
  {
    assert y in multiset(InsertDescending(x, s, key));
  }

  lemma TiesInOrderTail<T(!new)>(s: seq<T>, ref: seq<T>, key: T -> int)
    requires |s| > 0 && TiesInOrder(s, ref, key)
    ensures TiesInOrder(s[1..], ref, key)
  {
    var u := s[1..];
    forall i, j | 0 <= i < j < |u| && key(u[i]) == key(u[j])
      ensures IndexOf(ref, u[i]) < IndexOf(ref, u[j])
    {
      assert u[i] == s[i + 1] && u[j] == s[j + 1];
    }
  }

  lemma TiesInOrderCons<T(!new)>(h: T, t: seq<T>, ref: seq<T>, key: T -> int)
    requires TiesInOrder(t, ref, key)
    requires forall y :: y in t && key(h) == key(y) ==> IndexOf(ref, h) < IndexOf(ref, y)
    ensures TiesInOrder([h] + t, ref, key)
  {
    var r := [h] + t;
    forall i, j | 0 <= i < j < |r| && key(r[i]) == key(r[j])
      ensures IndexOf(ref, r[i]) < IndexOf(ref, r[j])
    {
      assert r[j] == t[j - 1] && t[j - 1] in t;
      if i > 0 {
        assert r[i] == t[i - 1];
      }
    }
  }

  lemma {:induction false} InsertKeepsTiesInOrder<T(!new)>(x: T, s: seq<T>, ref: seq<T>, key: T -> int)
    requires TiesInOrder(s, ref, key)
    requires forall y :: y in s ==> IndexOf(ref, x) < IndexOf(ref, y)
    ensures TiesInOrder(InsertDescending(x, s, key), ref, key)
  {
    if |s| == 0 {
    } else if key(x) >= key(s[0]) {
      TiesInOrderCons(x, s, ref, key);
    } else {
      var u := s[1..];
      TiesInOrderTail(s, ref, key);
      InsertKeepsTiesInOrder(x, u, ref, key);
      var t := InsertDescending(x, u, key);
      forall y | y in t && key(s[0]) == key(y)
        ensures IndexOf(ref, s[0]) < IndexOf(ref, y)
      {
        InsertedElement(x, u, key, y);
        var k :| 0 <= k < |u| && u[k] == y;
        assert s[k + 1] == y;
      }
      TiesInOrderCons(s[0], t, ref, key);
    }
  }

  /** The sort is stable: elements with equal keys keep the relative order they had in
      the input, measured against any reference the input is in first-occurrence order of. */
  lemma {:induction false} SortDescendingIsStable<T(!new)>(xs: seq<T>, ref: seq<T>, key: T -> int)
    requires InFirstOccurrenceOrder(xs, ref)
    ensures TiesInOrder(SortDescending(xs, key), ref, key)
  {
    if |xs| > 0 {
      var t := xs[1..];
      assert InFirstOccurrenceOrder(t, ref) by {
        forall i, j | 0 <= i < j < |t|
          ensures IndexOf(ref, t[i]) < IndexOf(ref, t[j])
        {
          assert t[i] == xs[i + 1] && t[j] == xs[j + 1];
        }
      }
      SortDescendingIsStable(t, ref, key);
      var s := SortDescending(t, key);
      forall y | y in s
        ensures IndexOf(ref, xs[0]) < IndexOf(ref, y)
      {
        assert y in multiset(s);
        assert y in multiset(t);
        var k :| 0 <= k < |t| && t[k] == y;
        assert xs[k + 1] == y;
      }
      InsertKeepsTiesInOrder(xs[0], s, ref, key);
    }
  }

  // ---------------------------------------------------------------------------
  // Stream.skip and Stream.limit

  /** Stream.skip(n) for n >= 0. */
  function Skip<T(!new)>(xs: seq<T>, n: nat): (r: seq<T>)
    ensures r == xs[Min(n, |xs|)..]
  {
    if n == 0 || |xs| == 0 then xs else Skip(xs[1..], n - 1)
  }

  /** Stream.limit(n) for n >= 0. */
  function Take<T(!new)>(xs: seq<T>, n: nat): (r: seq<T>)
    ensures r == xs[..Min(n, |xs|)]
  {
    if n == 0 || |xs| == 0 then [] else [xs[0]] + Take(xs[1..], n - 1)
  }

  /** `skip(s).limit(l)` is the slice of `l` elements starting at `s`, cut short at the end. */
  lemma SkipThenTake<T(!new)>(xs: seq<T>, s: nat, l: nat)
    ensures Take(Skip(xs, s), l) == xs[Min(s, |xs|)..Min(s + l, |xs|)]
  {
    var a := Min(s, |xs|);
    var rest := xs[a..];
    var m := Min(l, |rest|);
    assert Skip(xs, s) == rest;
    assert Take(rest, l) == rest[..m];
    assert a + m == Min(s + l, |xs|);
    assert rest[..m] == xs[a..a + m];
  }

  /** Two adjacent slices make up the slice that spans them. */
  lemma SliceConcat<T>(xs: seq<T>, a: nat, b: nat, c: nat)
    requires a <= b <= c <= |xs|
    ensures xs[a..b] + xs[b..c] == xs[a..c]
  {
  }

  // ---------------------------------------------------------------------------
  // IntStream.sum and DoubleStream.average

  function Sum(xs: seq<int>): int
  {
    if |xs| == 0 then 0 else xs[0] + Sum(xs[1..])
  }

  /** DoubleStream.average, with exact rational arithmetic: empty for an empty stream,
      otherwise the value whose product with the count is the sum. */
  function Average(xs: seq<int>): (r: Option<real>)
    ensures r.None? <==> |xs| == 0
    ensures r.Some? ==> r.value * (|xs| as real) == Sum(xs) as real
  {
    if |xs| == 0 then None else Some(Sum(xs) as real / |xs| as real)
  }

  /** `v` added up `n` times. */
  function Repeated(v: int, n: nat): int
  {
    if n == 0 then 0 else v + Repeated(v, n - 1)
  }

  lemma {:induction false} RepeatedAsProduct(v: int, n: nat)
    ensures Repeated(v, n) as real == (v as real) * (n as real)
  {
    if n > 0 {
      RepeatedAsProduct(v, n - 1);
      var x, m := v as real, (n - 1) as real;
      assert x * (m + 1.0) == x * m + x;
    }
  }

  lemma {:induction false} SumWithinBounds(xs: seq<int>, lo: int, hi: int)
    requires forall i :: 0 <= i < |xs| ==> lo <= xs[i] <= hi
    ensures Repeated(lo, |xs|) <= Sum(xs) <= Repeated(hi, |xs|)
  {
    if |xs| > 0 {
      var t := xs[1..];
      assert forall i :: 0 <= i < |t| ==> t[i] == xs[i + 1];
      SumWithinBounds(t, lo, hi);
    }
  }

  lemma QuotientWithinBounds(total: real, n: real, lo: real, hi: real)
    requires n > 0.0 && lo * n <= total <= hi * n
    ensures lo <= total / n <= hi
  {
    var q := total / n;
    assert q * n == total;
    assert (q - lo) * n == total - lo * n;
    assert (hi - q) * n == hi * n - total;
  }

  /** The average of a non-empty stream lies between any lower and upper bound of its elements. */
  lemma AverageWithinBounds(xs: seq<int>, lo: int, hi: int)
    requires |xs| > 0
    requires forall i :: 0 <= i < |xs| ==> lo <= xs[i] <= hi
    ensures lo as real <= Average(xs).value <= hi as real
  {
    SumWithinBounds(xs, lo, hi);
    RepeatedAsProduct(lo, |xs|);
    RepeatedAsProduct(hi, |xs|);
    QuotientWithinBounds(Sum(xs) as real, |xs| as real, lo as real, hi as real);
  }

  // ---------------------------------------------------------------------------
  // Stream.reduce and Collectors.joining

  /** The sequential left fold: `f` combines the accumulator with each element in turn. */
  function FoldLeft<T(!new)>(acc: T, xs: seq<T>, f: (T, T) -> T): (r: T)
    ensures |xs| == 0 ==> r == acc
  {
    if |xs| == 0 then acc else FoldLeft(f(acc, xs[0]), xs[1..], f)
  }

  /** The fold runs from left to right: the last element is combined last, with the fold
      of all the elements before it. */
  lemma {:induction false} FoldLeftLast<T(!new)>(acc: T, xs: seq<T>, f: (T, T) -> T)
    requires |xs| > 0
    ensures FoldLeft(acc, xs, f) == f(FoldLeft(acc, xs[..|xs| - 1], f), xs[|xs| - 1])
    decreases |xs|
  {
    var n := |xs|;
    var init := xs[..n - 1];
    if n == 1 {
      assert xs[1..] == [] && init == [];
    } else {
      var t := xs[1..];
      FoldLeftLast(f(acc, xs[0]), t, f);
      assert t[|t| - 1] == xs[n - 1];
      assert init[0] == xs[0] && init[1..] == t[..|t| - 1];
    }
  }

  /** Stream.reduce(f): empty for an empty stream, otherwise the left fold of `f`
      starting from the first element. */
  function Reduce<T(!new)>(xs: seq<T>, f: (T, T) -> T): (r: Option<T>)
    ensures r.None? <==> |xs| == 0
  {
    if |xs| == 0 then None else Some(FoldLeft(xs[0], xs[1..], f))
  }

  /** Collectors.joining(sep): the strings in order, with `sep` between neighbours. */
  function Joined(ns: seq<string>, sep: string): (r: string)
    ensures |ns| == 0 ==> r == ""
    ensures |ns| == 1 ==> r == ns[0]
  {
    if |ns| == 0 then ""
    else if |ns| == 1 then ns[0]
    else
      ns[0] + sep + Joined(ns[1..], sep)
  }

  /** Joining one more string adds a separator and that string at the end: the order of
      the parts is kept whichever end the joining starts from. */
  lemma {:induction false} JoinedAppend(ns: seq<string>, n: string, sep: string)
    requires |ns| > 0
    ensures Joined(ns + [n], sep) == Joined(ns, sep) + sep + n
  {
    var xs := ns + [n];
    assert xs[0] == ns[0];
    if |ns| == 1 {
      assert xs[1..] == [n];
    } else {
      assert xs[1..] == ns[1..] + [n];
      JoinedAppend(ns[1..], n, sep);
      assert ns[0] + sep + (Joined(ns[1..], sep) + sep + n) == (ns[0] + sep + Joined(ns[1..], sep)) + sep + n;
    }
  }

  function TotalLength(ns: seq<string>): nat
  {
    if |ns| == 0 then 0 else |ns[0]| + TotalLength(ns[1..])
  }

  /** Joining adds one separator between each pair of neighbours and nothing else. */
  lemma {:induction false} JoinedLength(ns: seq<string>, sep: string)
    ensures |ns| > 0 ==> |Joined(ns, sep)| == TotalLength(ns) + |sep| * (|ns| - 1)
    ensures |ns| == 0 ==> Joined(ns, sep) == ""
  {
    if |ns| > 1 {
      JoinedLength(ns[1..], sep);
    }
  }

  // ---------------------------------------------------------------------------
  // Collectors.groupingBy

  /** The elements classified under `k`, in encounter order: one bucket of groupingBy. */
  function WithKey<T(!new), K(==,!new)>(xs: seq<T>, key: T -> K, k: K): (r: seq<T>)
    ensures |r| <= |xs|
    ensures forall x :: x in r <==> x in xs && key(x) == k
  {
    if |xs| == 0 then []
    else (if key(xs[0]) == k then [xs[0]] else []) + WithKey(xs[1..], key, k)
  }

  lemma {:induction false} WithKeyAppend<T(!new), K(!new)>(xs: seq<T>, x: T, key: T -> K, k: K)
    ensures WithKey(xs + [x], key, k) == WithKey(xs, key, k) + (if key(x) == k then [x] else [])
  {
    if |xs| > 0 {
      assert (xs + [x])[1..] == xs[1..] + [x];
      WithKeyAppend(xs[1..], x, key, k);
    }
  }

  /** `g` is the grouping of `xs` by `key`: a key is present exactly when its bucket would
      be non-empty, and maps to that bucket, in encounter order. */
  ghost predicate IsGrouping<T(!new), K(!new)>(g: map<K, seq<T>>, xs: seq<T>, key: T -> K)
  {
    forall k :: (k in g <==> WithKey(xs, key, k) != []) && (k in g ==> g[k] == WithKey(xs, key, k))
  }

  /** One accumulation step of the collector: appending `x` to its key's bucket. */
  function Accumulate<T(!new), K(==,!new)>(g: map<K, seq<T>>, x: T, key: T -> K): map<K, seq<T>>
  {
    var k := key(x);
    g[k := (if k in g then g[k] else []) + [x]]
  }

  lemma AccumulateKeepsGrouping<T(!new), K(!new)>(g: map<K, seq<T>>, p: seq<T>, x: T, key: T -> K)
    requires IsGrouping(g, p, key)
    ensures IsGrouping(Accumulate(g, x, key), p + [x], key)
  {
    var g' := Accumulate(g, x, key);
    forall k
      ensures (k in g' <==> WithKey(p + [x], key, k) != [])
      ensures (k in g' ==> g'[k] == WithKey(p + [x], key, k))
    {
      WithKeyAppend(p, x, key, k);
    }
  }

  /** The keys of a grouping are exactly the keys some element is classified under. */
  lemma GroupingKeys<T(!new), K(!new)>(g: map<K, seq<T>>, xs: seq<T>, key: T -> K)
    requires IsGrouping(g, xs, key)
    ensures forall k :: k in g <==> exists x :: x in xs && key(x) == k
  {
    forall k
      ensures k in g <==> exists x :: x in xs && key(x) == k
    {
      var b := WithKey(xs, key, k);
      if b != [] {
        assert b[0] in b;
      }
    }
  }

  /** Collectors.groupingBy(key) with a toList downstream, accumulated one element at a
      time in encounter order. */
  function GroupBy<T(!new), K(==,!new)>(xs: seq<T>, key: T -> K): (g: map<K, seq<T>>)
    ensures IsGrouping(g, xs, key)
  {
    if |xs| == 0 then map[]
    else
      var p, x := xs[..|xs| - 1], xs[|xs| - 1];
      var g := GroupBy(p, key);
      assert xs == p + [x];
      AccumulateKeepsGrouping(g, p, x, key);
      Accumulate(g, x, key)
  }

  /** A boolean classifier splits the input into two buckets whose sizes add up to the input's. */
  lemma {:induction false} PartitionSizes<T(!new)>(xs: seq<T>, key: T -> bool)
    ensures |WithKey(xs, key, true)| + |WithKey(xs, key, false)| == |xs|
  {
    if |xs| > 0 {
      PartitionSizes(xs[1..], key);
      if key(xs[0]) {
        assert WithKey(xs, key, true) == [xs[0]] + WithKey(xs[1..], key, true);
        assert WithKey(xs, key, false) == WithKey(xs[1..], key, false);
      } else {
        assert WithKey(xs, key, true) == WithKey(xs[1..], key, true);
        assert WithKey(xs, key, false) == [xs[0]] + WithKey(xs[1..], key, false);
      }
    }
  }
}
