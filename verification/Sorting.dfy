/** Stable sorting by a total preorder, as `sort_by_key` and `Array.sort` do it. */
module Sorting {

  predicate Comparable<T>(le: (T, T) -> bool, x: T, y: T) {
    le(x, y) || le(y, x)
  }

  predicate Composes<T>(le: (T, T) -> bool, x: T, y: T, z: T) {
    le(x, y) && le(y, z) ==> le(x, z)
  }

  ghost predicate TotalPreorder<T(!new)>(le: (T, T) -> bool) {
    (forall x, y :: Comparable(le, x, y)) && (forall x, y, z :: Composes(le, x, y, z))
  }

  ghost predicate SortedBy<T>(le: (T, T) -> bool, xs: seq<T>) {
    forall i, j :: 0 <= i < j < |xs| ==> le(xs[i], xs[j])
  }

  /** Places `x` after every element that is not larger. */
  function Insert<T>(le: (T, T) -> bool, xs: seq<T>, x: T): (r: seq<T>)
    ensures |r| == |xs| + 1
  {
    if xs == [] || le(xs[|xs| - 1], x) then xs + [x]
    else Insert(le, xs[..|xs| - 1], x) + [xs[|xs| - 1]]
  }

  function SortBy<T>(le: (T, T) -> bool, xs: seq<T>): (r: seq<T>)
    ensures |r| == |xs|
  {
    if xs == [] then [] else Insert(le, SortBy(le, xs[..|xs| - 1]), xs[|xs| - 1])
  }

  lemma {:induction false} InsertRearranges<T>(le: (T, T) -> bool, xs: seq<T>, x: T)
    ensures multiset(Insert(le, xs, x)) == multiset(xs) + multiset{x}
  {
    if xs != [] && !le(xs[|xs| - 1], x) {
      InsertRearranges(le, xs[..|xs| - 1], x);
      assert xs == xs[..|xs| - 1] + [xs[|xs| - 1]];
    }
  }

  lemma SortedAppend<T>(le: (T, T) -> bool, xs: seq<T>, x: T)
    requires SortedBy(le, xs) && forall i :: 0 <= i < |xs| ==> le(xs[i], x)
    ensures SortedBy(le, xs + [x])
  {}

  lemma SortedPrepend<T>(le: (T, T) -> bool, x: T, xs: seq<T>)
    requires SortedBy(le, xs) && forall y :: y in xs ==> le(x, y)
    ensures SortedBy(le, [x] + xs)
  {}

  lemma {:induction false} InsertSorted<T(!new)>(le: (T, T) -> bool, xs: seq<T>, x: T)
    requires TotalPreorder(le) && SortedBy(le, xs)
    ensures SortedBy(le, Insert(le, xs, x))
  {
    if xs != [] {
      var init, last := xs[..|xs| - 1], xs[|xs| - 1];
      if le(last, x) {
        forall i | 0 <= i < |xs|
          ensures le(xs[i], x)
        {
          assert Composes(le, xs[i], last, x);
        }
        SortedAppend(le, xs, x);
      } else {
        InsertSorted(le, init, x);
        InsertRearranges(le, init, x);
        var r := Insert(le, init, x);
        forall i | 0 <= i < |r|
          ensures le(r[i], last)
        {
          assert r[i] in multiset(r);
          assert r[i] == x || r[i] in multiset(init);
          assert Comparable(le, last, x);
        }
        SortedAppend(le, r, last);
      }
    }
  }

  /** The result is sorted and rearranges the input. */
  lemma {:induction false} SortBySorts<T(!new)>(le: (T, T) -> bool, xs: seq<T>)
    requires TotalPreorder(le)
    ensures SortedBy(le, SortBy(le, xs))
    ensures multiset(SortBy(le, xs)) == multiset(xs)
  {
    if xs != [] {
      SortBySorts(le, xs[..|xs| - 1]);
      InsertSorted(le, SortBy(le, xs[..|xs| - 1]), xs[|xs| - 1]);
      InsertRearranges(le, SortBy(le, xs[..|xs| - 1]), xs[|xs| - 1]);
      assert xs == xs[..|xs| - 1] + [xs[|xs| - 1]];
    }
  }

  /** A sequence already in order stays as it is. */
  lemma {:induction false} SortByFixed<T>(le: (T, T) -> bool, xs: seq<T>)
    requires SortedBy(le, xs)
    ensures SortBy(le, xs) == xs
  {
    if xs != [] {
      SortByFixed(le, xs[..|xs| - 1]);
      assert |xs| > 1 ==> le(xs[|xs| - 2], xs[|xs| - 1]);
    }
  }

  predicate Ties<T>(le: (T, T) -> bool, x: T, y: T) {
    le(x, y) && le(y, x)
  }

  /** The elements that tie with `v`, in order. */
  function TiedWith<T>(le: (T, T) -> bool, xs: seq<T>, v: T): seq<T> {
    if xs == [] then []
    else TiedWith(le, xs[..|xs| - 1], v) + if Ties(le, xs[|xs| - 1], v) then [xs[|xs| - 1]] else []
  }

  lemma TiedAppend<T>(le: (T, T) -> bool, xs: seq<T>, x: T, v: T)
    ensures TiedWith(le, xs + [x], v) == TiedWith(le, xs, v) + if Ties(le, x, v) then [x] else []
  {
    assert (xs + [x])[..|xs + [x]| - 1] == xs;
  }

  lemma {:induction false} InsertStable<T(!new)>(le: (T, T) -> bool, xs: seq<T>, x: T, v: T)
    requires TotalPreorder(le)
    ensures TiedWith(le, Insert(le, xs, x), v) == TiedWith(le, xs, v) + if Ties(le, x, v) then [x] else []
  {
    if xs == [] || le(xs[|xs| - 1], x) {
      TiedAppend(le, xs, x, v);
    } else {
      var init, last := xs[..|xs| - 1], xs[|xs| - 1];
      InsertStable(le, init, x, v);
      TiedAppend(le, Insert(le, init, x), last, v);
      assert Composes(le, last, v, x);
    }
  }

  /** Elements that tie keep their order. */
  lemma {:induction false} SortByStable<T(!new)>(le: (T, T) -> bool, xs: seq<T>, v: T)
    requires TotalPreorder(le)
    ensures TiedWith(le, SortBy(le, xs), v) == TiedWith(le, xs, v)
  {
    if xs != [] {
      SortByStable(le, xs[..|xs| - 1], v);
      InsertStable(le, SortBy(le, xs[..|xs| - 1]), xs[|xs| - 1], v);
    }
  }
}
