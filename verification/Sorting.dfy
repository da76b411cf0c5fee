/** Sorting by a strict total order, and what filtering does to it. The sort
    stands for the library sort the source calls. */
module Sorting {
  import opened Base

  ghost predicate StrictTotal<T(!new)>(before: (T, T) -> bool) {
    && (forall a :: !before(a, a))
    && (forall a, b :: before(a, b) || before(b, a) || a == b)
    && (forall a, b, c :: before(a, b) && before(b, c) ==> before(a, c))
  }

  predicate SortedBy<T>(s: seq<T>, before: (T, T) -> bool) {
    forall i, j :: 0 <= i < j < |s| ==> before(s[i], s[j])
  }

  predicate IsLeast<T(==)>(x: T, s: set<T>, before: (T, T) -> bool) {
    x in s && forall y :: y in s && y != x ==> before(x, y)
  }

  lemma {:induction false} LeastExists<T(!new)>(s: set<T>, before: (T, T) -> bool)
    requires StrictTotal(before) && s != {}
    ensures exists x :: IsLeast(x, s, before)
  {
    var x :| x in s;
    var rest := s - {x};
    if rest == {} {
      assert s == {x};
      assert IsLeast(x, s, before);
    } else {
      LeastExists(rest, before);
      var y :| IsLeast(y, rest, before);
      var least := if before(x, y) then x else y;
      forall z | z in s && z != least ensures before(least, z) {
        if z != x { assert z in rest && (z != y ==> before(y, z)); }
      }
      assert IsLeast(least, s, before);
    }
  }

  function Insert<T(==)>(x: T, s: seq<T>, before: (T, T) -> bool): seq<T> {
    if s == [] then [x]
    else if before(x, s[0]) then [x] + s
    else [s[0]] + Insert(x, s[1..], before)
  }

  function SortBy<T(==)>(s: seq<T>, before: (T, T) -> bool): seq<T> {
    if s == [] then [] else Insert(s[0], SortBy(s[1..], before), before)
  }

  function Filter<T>(s: seq<T>, keep: T -> bool): seq<T> {
    if s == [] then []
    else if keep(s[0]) then [s[0]] + Filter(s[1..], keep)
    else Filter(s[1..], keep)
  }

  lemma {:induction false} InsertMembers<T(!new)>(x: T, s: seq<T>, before: (T, T) -> bool)
    ensures forall y :: y in Insert(x, s, before) <==> y == x || y in s
    ensures |Insert(x, s, before)| == |s| + 1
  {
    if s != [] && !before(x, s[0]) {
      assert s == [s[0]] + s[1..];
      InsertMembers(x, s[1..], before);
    }
  }

  lemma {:induction false} InsertSorts<T(!new)>(x: T, s: seq<T>, before: (T, T) -> bool)
    requires StrictTotal(before) && SortedBy(s, before) && x !in s
    ensures SortedBy(Insert(x, s, before), before)
    ensures forall y :: y in Insert(x, s, before) <==> y == x || y in s
    ensures |Insert(x, s, before)| == |s| + 1
  {
    InsertMembers(x, s, before);
    if s != [] {
      if before(x, s[0]) {
        forall i | 0 <= i < |s| ensures before(x, s[i]) { assert i == 0 || before(s[0], s[i]); }
      } else {
        var rest := Insert(x, s[1..], before);
        InsertSorts(x, s[1..], before);
        forall i | 0 <= i < |rest| ensures before(s[0], rest[i]) {
          assert rest[i] in rest;
          if rest[i] != x {
            var j :| 0 <= j < |s[1..]| && s[1..][j] == rest[i];
            assert rest[i] == s[j + 1];
          }
        }
      }
    }
  }

  lemma {:induction false} SortBySorts<T(!new)>(s: seq<T>, before: (T, T) -> bool)
    requires StrictTotal(before) && Distinct(s)
    ensures SortedBy(SortBy(s, before), before)
    ensures forall y :: y in SortBy(s, before) <==> y in s
    ensures |SortBy(s, before)| == |s|
  {
    if s != [] {
      assert s[0] !in s[1..];
      SortBySorts(s[1..], before);
      InsertSorts(s[0], SortBy(s[1..], before), before);
      assert s == [s[0]] + s[1..];
    }
  }

  /** There is only one way to sort the same elements. */
  lemma {:induction false} SortedUnique<T(!new)>(a: seq<T>, b: seq<T>, before: (T, T) -> bool)
    requires StrictTotal(before) && SortedBy(a, before) && SortedBy(b, before)
    requires forall x :: x in a <==> x in b
    ensures a == b
  {
    assert a != [] ==> a[0] in b;
    assert b != [] ==> b[0] in a;
    if a != [] {
      assert a[0] == b[0];
      assert a[0] !in a[1..] && b[0] !in b[1..];
      assert a == [a[0]] + a[1..] && b == [b[0]] + b[1..];
      forall x ensures x in a[1..] <==> x in b[1..] {
        assert x in a <==> x == a[0] || x in a[1..];
        assert x in b <==> x == b[0] || x in b[1..];
      }
      SortedUnique(a[1..], b[1..], before);
    }
  }

  lemma FilterKeeps<T(!new)>(s: seq<T>, keep: T -> bool, before: (T, T) -> bool)
    ensures forall x :: x in Filter(s, keep) <==> x in s && keep(x)
    ensures SortedBy(s, before) ==> SortedBy(Filter(s, keep), before)
    ensures Distinct(s) ==> Distinct(Filter(s, keep))
  {
    FilterMembers(s, keep);
    if SortedBy(s, before) { FilterSorted(s, keep, before); }
    if Distinct(s) { FilterDistinct(s, keep); }
  }

  lemma {:induction false} FilterMembers<T(!new)>(s: seq<T>, keep: T -> bool)
    ensures forall x :: x in Filter(s, keep) <==> x in s && keep(x)
  {
    if s != [] {
      assert s == [s[0]] + s[1..];
      FilterMembers(s[1..], keep);
    }
  }

  lemma {:induction false} FilterSorted<T(!new)>(s: seq<T>, keep: T -> bool, before: (T, T) -> bool)
    requires SortedBy(s, before)
    ensures SortedBy(Filter(s, keep), before)
  {
    if s != [] {
      var rest := Filter(s[1..], keep);
      FilterSorted(s[1..], keep, before);
      FilterMembers(s[1..], keep);
      forall i | 0 <= i < |rest| ensures before(s[0], rest[i]) { assert rest[i] in s[1..]; }
    }
  }

  lemma {:induction false} FilterDistinct<T(!new)>(s: seq<T>, keep: T -> bool)
    requires Distinct(s)
    ensures Distinct(Filter(s, keep))
  {
    if s != [] {
      var rest := Filter(s[1..], keep);
      FilterDistinct(s[1..], keep);
      FilterMembers(s[1..], keep);
      forall i | 0 <= i < |rest| ensures rest[i] != s[0] { assert rest[i] in s[1..]; }
    }
  }

  lemma {:induction false} FilterConcat<T>(a: seq<T>, b: seq<T>, keep: T -> bool)
    ensures Filter(a + b, keep) == Filter(a, keep) + Filter(b, keep)
  {
    if a == [] {
      assert a + b == b;
    } else {
      assert (a + b)[1..] == a[1..] + b;
      FilterConcat(a[1..], b, keep);
    }
  }

  lemma {:induction false} FilterSwap<T>(s: seq<T>, p: T -> bool, q: T -> bool)
    ensures Filter(Filter(s, p), q) == Filter(Filter(s, q), p)
  {
    if s != [] { FilterSwap(s[1..], p, q); }
  }

  /** Sorting what is left is what is left of the sorted. */
  lemma SortOfFilter<T(!new)>(s: seq<T>, keep: T -> bool, before: (T, T) -> bool)
    requires StrictTotal(before) && Distinct(s)
    ensures SortBy(Filter(s, keep), before) == Filter(SortBy(s, before), keep)
  {
    FilterKeeps(s, keep, before);
    SortBySorts(s, before);
    SortBySorts(Filter(s, keep), before);
    FilterKeeps(SortBy(s, before), keep, before);
    SortedUnique(SortBy(Filter(s, keep), before), Filter(SortBy(s, before), keep), before);
  }
}
