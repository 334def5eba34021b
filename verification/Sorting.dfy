/** Filtering and stable sorting of sequences, for any order. */
module Sorting {
  function Filter<T>(p: T -> bool, xs: seq<T>): seq<T> {
    if |xs| == 0 then [] else (if p(xs[0]) then [xs[0]] else []) + Filter(p, xs[1..])
  }

  lemma {:induction false} FilterMembers<T(!new)>(p: T -> bool, xs: seq<T>)
    ensures forall x :: x in Filter(p, xs) <==> x in xs && p(x)
  {
    if |xs| > 0 {
      FilterMembers(p, xs[1..]);
      assert xs == [xs[0]] + xs[1..];
    }
  }

  /** Insert before the first element that need not come earlier: equals keep their order. */
  function Insert<T>(le: (T, T) -> bool, x: T, xs: seq<T>): seq<T> {
    if |xs| == 0 || le(x, xs[0]) then [x] + xs else [xs[0]] + Insert(le, x, xs[1..])
  }

  /** A stable sort. */
  function Sort<T>(le: (T, T) -> bool, xs: seq<T>): seq<T> {
    if |xs| == 0 then [] else Insert(le, xs[0], Sort(le, xs[1..]))
  }

  ghost predicate Preorder<T(!new)>(le: (T, T) -> bool) {
    && (forall x, y :: le(x, y) || le(y, x))
    && (forall x, y, z :: le(x, y) && le(y, z) ==> le(x, z))
  }

  ghost predicate Least<T>(le: (T, T) -> bool, x: T, xs: seq<T>) {
    forall y | y in xs :: le(x, y)
  }

  ghost predicate Sorted<T>(le: (T, T) -> bool, xs: seq<T>) {
    |xs| > 0 ==> Least(le, xs[0], xs[1..]) && Sorted(le, xs[1..])
  }

  lemma {:induction false} SortedAt<T>(le: (T, T) -> bool, xs: seq<T>, i: nat, j: nat)
    requires Sorted(le, xs) && i < j < |xs|
    ensures le(xs[i], xs[j])
  {
    if i == 0 {
      assert xs[j] == xs[1..][j - 1];
    } else {
      SortedAt(le, xs[1..], i - 1, j - 1);
    }
  }

  lemma {:induction false} InsertMembers<T(!new)>(le: (T, T) -> bool, x: T, xs: seq<T>)
    ensures multiset(Insert(le, x, xs)) == multiset{x} + multiset(xs)
    ensures forall y :: y in Insert(le, x, xs) <==> y == x || y in xs
  {
    if !(|xs| == 0 || le(x, xs[0])) {
      InsertMembers(le, x, xs[1..]);
      assert xs == [xs[0]] + xs[1..];
    }
  }

  lemma {:induction false} InsertSorted<T(!new)>(le: (T, T) -> bool, x: T, xs: seq<T>)
    requires Preorder(le) && Sorted(le, xs)
    ensures Sorted(le, Insert(le, x, xs))
  {
    if |xs| == 0 || le(x, xs[0]) {
      assert ([x] + xs)[1..] == xs;
      if |xs| > 0 {
        assert xs == [xs[0]] + xs[1..];
      }
    } else {
      InsertSorted(le, x, xs[1..]);
      InsertMembers(le, x, xs[1..]);
      var rest := Insert(le, x, xs[1..]);
      assert ([xs[0]] + rest)[1..] == rest;
    }
  }

  /** Sorting orders the elements and keeps each exactly as often as it was there. */
  lemma {:induction false} SortSorts<T(!new)>(le: (T, T) -> bool, xs: seq<T>)
    requires Preorder(le)
    ensures Sorted(le, Sort(le, xs)) && multiset(Sort(le, xs)) == multiset(xs)
  {
    if |xs| > 0 {
      SortSorts(le, xs[1..]);
      InsertSorted(le, xs[0], Sort(le, xs[1..]));
      InsertMembers(le, xs[0], Sort(le, xs[1..]));
      assert xs == [xs[0]] + xs[1..];
    }
  }

  lemma {:induction false} FilterSorted<T(!new)>(le: (T, T) -> bool, p: T -> bool, xs: seq<T>)
    requires Sorted(le, xs)
    ensures Sorted(le, Filter(p, xs))
  {
    if |xs| > 0 {
      FilterSorted(le, p, xs[1..]);
      FilterMembers(p, xs[1..]);
      var rest := Filter(p, xs[1..]);
      assert [] + rest == rest && ([xs[0]] + rest)[1..] == rest;
    }
  }

  lemma {:induction false} FilterCount<T>(p: T -> bool, xs: seq<T>, x: T)
    ensures multiset(Filter(p, xs))[x] == if p(x) then multiset(xs)[x] else 0
  {
    if |xs| > 0 {
      FilterCount(p, xs[1..], x);
      assert xs == [xs[0]] + xs[1..];
      assert [] + Filter(p, xs[1..]) == Filter(p, xs[1..]);
    }
  }

  /** Two filters that between them take each element once lose nothing. */
  lemma FilterSplits<T(!new)>(p: T -> bool, q: T -> bool, xs: seq<T>)
    requires forall x :: p(x) <==> !q(x)
    ensures multiset(Filter(p, xs)) + multiset(Filter(q, xs)) == multiset(xs)
  {
    forall x ensures multiset(Filter(p, xs))[x] + multiset(Filter(q, xs))[x] == multiset(xs)[x] {
      FilterCount(p, xs, x);
      FilterCount(q, xs, x);
    }
  }

  lemma FilterHead<T>(p: T -> bool, x: T, xs: seq<T>)
    ensures Filter(p, [x] + xs) == if p(x) then [x] + Filter(p, xs) else Filter(p, xs)
  {
    assert ([x] + xs)[1..] == xs && [] + Filter(p, xs) == Filter(p, xs);
  }

  lemma InsertFirst<T(!new)>(le: (T, T) -> bool, p: T -> bool, x: T, xs: seq<T>)
    requires Preorder(le) && Sorted(le, xs) && (|xs| == 0 || le(x, xs[0]))
    ensures Insert(le, x, Filter(p, xs)) == [x] + Filter(p, xs)
  {
    FilterMembers(p, xs);
    assert |xs| > 0 ==> xs == [xs[0]] + xs[1..];
    assert |Filter(p, xs)| > 0 ==> Filter(p, xs)[0] in xs;
  }

  lemma {:induction false} FilterInsert<T(!new)>(le: (T, T) -> bool, p: T -> bool, x: T, xs: seq<T>)
    requires Preorder(le) && Sorted(le, xs)
    ensures Filter(p, Insert(le, x, xs)) == if p(x) then Insert(le, x, Filter(p, xs)) else Filter(p, xs)
  {
    if |xs| == 0 || le(x, xs[0]) {
      FilterHead(p, x, xs);
      InsertFirst(le, p, x, xs);
    } else {
      FilterInsert(le, p, x, xs[1..]);
      assert xs == [xs[0]] + xs[1..];
      FilterHead(p, xs[0], Insert(le, x, xs[1..]));
      FilterHead(p, xs[0], xs[1..]);
      assert ([xs[0]] + Filter(p, xs[1..]))[1..] == Filter(p, xs[1..]);
    }
  }

  /** Filtering first and sorting first come to the same. */
  lemma {:induction false} FilterSort<T(!new)>(le: (T, T) -> bool, p: T -> bool, xs: seq<T>)
    requires Preorder(le)
    ensures Sort(le, Filter(p, xs)) == Filter(p, Sort(le, xs))
  {
    if |xs| > 0 {
      FilterSort(le, p, xs[1..]);
      SortSorts(le, xs[1..]);
      FilterInsert(le, p, xs[0], Sort(le, xs[1..]));
      var rest := Filter(p, xs[1..]);
      assert [] + rest == rest && ([xs[0]] + rest)[1..] == rest;
    }
  }

  lemma {:induction false} FilterTwice<T(!new)>(p: T -> bool, q: T -> bool, xs: seq<T>)
    requires forall x :: q(x) ==> p(x)
    ensures Filter(q, Filter(p, xs)) == Filter(q, xs)
  {
    if |xs| > 0 {
      FilterTwice(p, q, xs[1..]);
      var rest := Filter(p, xs[1..]);
      assert [] + rest == rest && ([xs[0]] + rest)[1..] == rest;
    }
  }

  lemma {:induction false} FilterNone<T>(p: T -> bool, xs: seq<T>)
    requires forall x | x in xs :: !p(x)
    ensures Filter(p, xs) == []
  {
    if |xs| > 0 {
      FilterNone(p, xs[1..]);
    }
  }

  lemma {:induction false} FilterAll<T>(p: T -> bool, xs: seq<T>)
    requires forall x | x in xs :: p(x)
    ensures Filter(p, xs) == xs
  {
    if |xs| > 0 {
      FilterAll(p, xs[1..]);
    }
  }

  /** A filter that refuses exactly the first `k` drops exactly those. */
  lemma {:induction false} FilterDrops<T>(p: T -> bool, xs: seq<T>, k: nat)
    requires k <= |xs| && forall i :: 0 <= i < |xs| ==> (p(xs[i]) <==> k <= i)
    ensures Filter(p, xs) == xs[k..]
  {
    if k == 0 {
      FilterAll(p, xs);
    } else {
      FilterDrops(p, xs[1..], k - 1);
      assert [] + Filter(p, xs[1..]) == Filter(p, xs[1..]) && xs[1..][k - 1..] == xs[k..];
    }
  }

  ghost predicate Clear<T>(apart: (T, T) -> bool, x: T, xs: seq<T>) {
    forall y | y in xs :: apart(x, y) && apart(y, x)
  }

  /** Any two elements are apart. */
  ghost predicate Apart<T>(apart: (T, T) -> bool, xs: seq<T>) {
    |xs| > 0 ==> Clear(apart, xs[0], xs[1..]) && Apart(apart, xs[1..])
  }

  lemma {:induction false} InsertApart<T(!new)>(le: (T, T) -> bool, apart: (T, T) -> bool, x: T, xs: seq<T>)
    requires Clear(apart, x, xs) && Apart(apart, xs)
    ensures Apart(apart, Insert(le, x, xs))
  {
    if |xs| == 0 || le(x, xs[0]) {
      assert ([x] + xs)[1..] == xs;
    } else {
      assert xs == [xs[0]] + xs[1..];
      InsertApart(le, apart, x, xs[1..]);
      InsertMembers(le, x, xs[1..]);
      var rest := Insert(le, x, xs[1..]);
      assert ([xs[0]] + rest)[1..] == rest;
    }
  }

  lemma {:induction false} SortApart<T(!new)>(le: (T, T) -> bool, apart: (T, T) -> bool, xs: seq<T>)
    requires Preorder(le) && Apart(apart, xs)
    ensures Apart(apart, Sort(le, xs))
  {
    if |xs| > 0 {
      SortApart(le, apart, xs[1..]);
      SortSorts(le, xs[1..]);
      forall y | y in Sort(le, xs[1..]) ensures y in xs[1..] {
        assert y in multiset(xs[1..]);
      }
      InsertApart(le, apart, xs[0], Sort(le, xs[1..]));
    }
  }

  /** Sorted elements that are apart are sorted strictly. */
  lemma {:induction false} SortedStrictly<T(!new)>(le: (T, T) -> bool, apart: (T, T) -> bool, lt: (T, T) -> bool, xs: seq<T>)
    requires Sorted(le, xs) && Apart(apart, xs)
    requires forall x, y :: le(x, y) && apart(x, y) ==> lt(x, y)
    ensures Sorted(lt, xs)
  {
    if |xs| > 0 {
      SortedStrictly(le, apart, lt, xs[1..]);
    }
  }
}
