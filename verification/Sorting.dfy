/** The built-in stable sorts (`sort_by_key`, `Array.prototype.sort`), as one function. */
module Sorting {

  /** A total preorder. */
  ghost predicate IsOrder<T(!new)>(le: (T, T) -> bool) {
    && (forall x, y :: le(x, y) || le(y, x))
    && (forall x, y, z :: le(x, y) && le(y, z) ==> le(x, z))
  }

  ghost predicate Ordered<T>(s: seq<T>, le: (T, T) -> bool) {
    forall i, j :: 0 <= i < j < |s| ==> le(s[i], s[j])
  }

  /** A stable insertion sort. */
  function Sort<T(!new)>(s: seq<T>, le: (T, T) -> bool): (r: seq<T>)
    requires IsOrder(le)
    ensures multiset(r) == multiset(s)
    ensures |r| == |s|
    ensures Ordered(r, le)
  {
    if s == [] then
      []
    else
      assert s == [s[0]] + s[1..];
      var rest := Sort(s[1..], le);
      var i := InsertPosition(s[0], rest, le, 0);
      InsertedMultiset(rest, i, s[0]);
      InsertedOrdered(rest[..i], s[0], rest[i..], le);
      rest[..i] + [s[0]] + rest[i..]
  }

  function InsertPosition<T(!new)>(x: T, s: seq<T>, le: (T, T) -> bool, from: nat): (i: nat)
    requires IsOrder(le) && from <= |s| && Ordered(s, le)
    requires forall j :: 0 <= j < from ==> le(s[j], x)
    ensures i <= |s|
    ensures forall j :: 0 <= j < i ==> le(s[j], x)
    ensures forall j :: i <= j < |s| ==> le(x, s[j])
    decreases |s| - from
  {
    if from == |s| || le(x, s[from]) then from else InsertPosition(x, s, le, from + 1)
  }

  lemma InsertedMultiset<T>(s: seq<T>, i: nat, x: T)
    requires i <= |s|
    ensures multiset(s[..i] + [x] + s[i..]) == multiset{x} + multiset(s)
  {
    assert s == s[..i] + s[i..];
  }

  lemma InsertedOrdered<T(!new)>(a: seq<T>, x: T, b: seq<T>, le: (T, T) -> bool)
    requires IsOrder(le) && Ordered(a, le) && Ordered(b, le)
    requires forall i :: 0 <= i < |a| ==> le(a[i], x)
    requires forall i :: 0 <= i < |b| ==> le(x, b[i])
    ensures Ordered(a + [x] + b, le)
  {
    var r := a + [x] + b;
    forall i, j | 0 <= i < j < |r|
      ensures le(r[i], r[j])
    {
      assert i < |a| ==> le(r[i], x);
      assert j > |a| ==> le(x, r[j]);
    }
  }

  ghost predicate Sorted<T>(s: seq<T>, key: T -> real) {
    forall i, j :: 0 <= i < j < |s| ==> key(s[i]) <= key(s[j])
  }

  /** The sort by a key. */
  function SortBy<T(!new)>(s: seq<T>, key: T -> real): (r: seq<T>)
    ensures multiset(r) == multiset(s)
    ensures |r| == |s|
    ensures forall x :: x in r <==> x in s
    ensures Sorted(r, key)
  {
    var r := Sort(s, (x, y) => key(x) <= key(y));
    assert forall x :: x in r <==> x in multiset(r);
    r
  }

  ghost predicate Distinct<T>(s: seq<T>) {
    forall i, j :: 0 <= i < j < |s| ==> s[i] != s[j]
  }

  lemma DistinctIffMultiplicity<T(!new)>(s: seq<T>)
    ensures Distinct(s) <==> forall x :: multiset(s)[x] <= 1
  {
    if s != [] {
      var init, last := s[..|s| - 1], s[|s| - 1];
      assert s == init + [last];
      DistinctIffMultiplicity(init);
      assert multiset(s) == multiset(init) + multiset{last};
      if Distinct(s) {
        assert last !in multiset(init);
      }
      if forall x :: multiset(s)[x] <= 1 {
        assert forall x :: multiset(init)[x] <= multiset(s)[x];
        assert multiset(s)[last] <= 1;
        assert last !in init;
      }
    }
  }

  lemma PermutationDistinct<T(!new)>(s: seq<T>, r: seq<T>)
    requires Distinct(s) && multiset(r) == multiset(s)
    ensures Distinct(r)
    ensures forall x :: x in r <==> x in s
  {
    DistinctIffMultiplicity(s);
    DistinctIffMultiplicity(r);
    assert forall x :: x in r <==> x in multiset(r);
  }

  ghost function ToSet<T>(s: seq<T>): set<T> {
    set x | x in s
  }

  /** The set of elements of a duplicate-free sequence has as many members as the sequence. */
  lemma {:induction false} DistinctCardinality<T>(s: seq<T>)
    requires Distinct(s)
    ensures |ToSet(s)| == |s|
  {
    if s != [] {
      var init, last := s[..|s| - 1], s[|s| - 1];
      DistinctCardinality(init);
      assert ToSet(s) == ToSet(init) + {last};
      assert last !in init;
    }
  }
}
