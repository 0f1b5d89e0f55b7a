/** Insertion sort with respect to a caller-supplied total preorder. It
    stands in for Python's `sorted`, which both the category lists and
    the author table rely on. */
module Sorting {
  import opened Sequences

  /** `le` is total and transitive, as any key-based ordering is. */
  ghost predicate TotalPreorder<T(!new)>(le: (T, T) -> bool) {
    && (forall a, b :: le(a, b) || le(b, a))
    && (forall a, b, c :: le(a, b) && le(b, c) ==> le(a, c))
  }

  /** Every element is `le` every element after it. */
  ghost predicate SortedBy<T>(s: seq<T>, le: (T, T) -> bool) {
    forall i, j :: 0 <= i < j < |s| ==> le(s[i], s[j])
  }

  /** An element that is `le` every element of a sorted sequence can be
      put in front of it. */
  lemma ConsSorted<T>(a: T, s: seq<T>, le: (T, T) -> bool)
    requires SortedBy(s, le)
    requires forall j :: 0 <= j < |s| ==> le(a, s[j])
    ensures SortedBy([a] + s, le)
  {
  }

  /** Places `x` in front of the first element of the sorted `s` that it
      precedes, keeping the elements that it does not precede in front. */
  function Insert<T(==,!new)>(x: T, s: seq<T>, le: (T, T) -> bool): (r: seq<T>)
    requires TotalPreorder(le)
    requires SortedBy(s, le)
    ensures forall y :: y in r <==> y == x || y in s
    ensures multiset(r) == multiset(s) + multiset{x}
    ensures SortedBy(r, le)
  {
    if s == [] || le(x, s[0]) then
      assert forall j :: 0 <= j < |s| ==> le(x, s[j]) by {
        forall j | 0 <= j < |s| ensures le(x, s[j]) {
          if j > 0 {
            assert le(s[0], s[j]);
          }
        }
      }
      ConsSorted(x, s, le);
      [x] + s
    else
      var rest := Insert(x, s[1..], le);
      assert s == [s[0]] + s[1..];
      assert forall j :: 0 <= j < |rest| ==> le(s[0], rest[j]) by {
        assert le(s[0], x);
        forall j | 0 <= j < |rest| ensures le(s[0], rest[j]) {
          assert rest[j] in rest;
        }
      }
      ConsSorted(s[0], rest, le);
      [s[0]] + rest
  }

  /** Inserting a new element into a list without repetitions keeps it so. */
  lemma {:induction false} InsertKeepsDistinct<T(!new)>(x: T, s: seq<T>, le: (T, T) -> bool)
    requires TotalPreorder(le)
    requires SortedBy(s, le)
    requires Distinct(s) && x !in s
    ensures Distinct(Insert(x, s, le))
  {
    if s == [] || le(x, s[0]) {
    } else {
      assert s == [s[0]] + s[1..];
      var rest := Insert(x, s[1..], le);
      InsertKeepsDistinct(x, s[1..], le);
      assert s[0] !in rest;
      var r := [s[0]] + rest;
      assert r == Insert(x, s, le);
      forall i, j | 0 <= i < j < |r| ensures r[i] != r[j] {
        if i == 0 {
          assert r[j] == rest[j - 1];
        } else {
          assert r[i] == rest[i - 1] && r[j] == rest[j - 1];
        }
      }
    }
  }

  /** A permutation of `s` that is sorted by `le`. */
  function SortBy<T(==,!new)>(s: seq<T>, le: (T, T) -> bool): (r: seq<T>)
    requires TotalPreorder(le)
    ensures multiset(r) == multiset(s)
    ensures |r| == |s|
    ensures SortedBy(r, le)
    ensures Distinct(s) ==> Distinct(r)
  {
    if s == [] then []
    else
      assert s == [s[0]] + s[1..];
      var rest := SortBy(s[1..], le);
      assert Distinct(s) ==> Distinct(rest) && s[0] !in rest by {
        if Distinct(s) {
          assert Distinct(s[1..]);
          assert s[0] !in multiset(s[1..]);
          assert s[0] !in multiset(rest);
        }
      }
      assert Distinct(s) ==> Distinct(Insert(s[0], rest, le)) by {
        if Distinct(s) {
          InsertKeepsDistinct(s[0], rest, le);
        }
      }
      Insert(s[0], rest, le)
  }

  /** Sorting keeps exactly the elements it was given. */
  lemma SortByMembers<T(!new)>(s: seq<T>, le: (T, T) -> bool)
    requires TotalPreorder(le)
    ensures forall x :: x in SortBy(s, le) <==> x in s
  {
  }

  /** The elements `le` ranks equal to `y`. */
  function Equivalent<T>(le: (T, T) -> bool, y: T): T -> bool {
    z => le(z, y) && le(y, z)
  }

  /** Inserting `x` keeps the elements equivalent to `y` in the order of
      `[x] + s`: `x` goes after none of them. */
  lemma {:induction false} InsertStable<T(!new)>(x: T, s: seq<T>, le: (T, T) -> bool, y: T)
    requires TotalPreorder(le)
    requires SortedBy(s, le)
    ensures Filter(Insert(x, s, le), Equivalent(le, y)) == Filter([x] + s, Equivalent(le, y))
  {
    var e := Equivalent(le, y);
    if s != [] && !le(x, s[0]) {
      var t := s[1..];
      assert s == [s[0]] + t;
      InsertStable(x, t, le, y);
      FilterAppend([s[0]], Insert(x, t, le), e);
      FilterAppend([x], t, e);
      FilterAppend([x], s, e);
      FilterAppend([s[0]], t, e);
      if e(x) {
        assert !e(s[0]);
        assert Filter([s[0]], e) == [];
      } else {
        assert Filter([x], e) == [];
      }
    }
  }

  /** `SortBy` is stable: the elements equivalent to any `y` come out in
      the order they went in. */
  lemma {:induction false} SortByStable<T(!new)>(s: seq<T>, le: (T, T) -> bool, y: T)
    requires TotalPreorder(le)
    ensures Filter(SortBy(s, le), Equivalent(le, y)) == Filter(s, Equivalent(le, y))
  {
    if s != [] {
      var e := Equivalent(le, y);
      var rest := SortBy(s[1..], le);
      SortByStable(s[1..], le, y);
      InsertStable(s[0], rest, le, y);
      FilterAppend([s[0]], rest, e);
      FilterAppend([s[0]], s[1..], e);
      assert s == [s[0]] + s[1..];
    }
  }
}
