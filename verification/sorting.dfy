/** Python's `sorted(xs, key=...)` as a stable insertion sort over a
    comparison `le` (the `<=` of the keys), with its ordering, permutation
    and stability properties. */
module Sorting {

  /** `le` is total and transitive: the `<=` of some key. */
  ghost predicate TotalPreorder<T(!new)>(le: (T, T) -> bool) {
    && (forall a, b :: le(a, b) || le(b, a))
    && (forall a, b, c :: le(a, b) && le(b, c) ==> le(a, c))
  }

  predicate SortedBy<T>(s: seq<T>, le: (T, T) -> bool) {
    forall i, j :: 0 <= i < j < |s| ==> le(s[i], s[j])
  }

  /** Sorted by `le`, and elements `le` ranks equal are in `tie` order. */
  predicate SortedThenBy<T>(s: seq<T>, le: (T, T) -> bool, tie: (T, T) -> bool) {
    forall i, j :: 0 <= i < j < |s| ==> le(s[i], s[j]) && (le(s[j], s[i]) ==> tie(s[i], s[j]))
  }

  /** Inserts `x` before the first element it is `le`; so before every
      element ranked equal to it. */
  function Insert<T>(x: T, s: seq<T>, le: (T, T) -> bool): (r: seq<T>)
    ensures multiset(r) == multiset(s) + multiset{x}
    decreases |s|
  {
    if |s| == 0 || le(x, s[0]) then [x] + s
    else
      assert s == [s[0]] + s[1..];
      [s[0]] + Insert(x, s[1..], le)
  }

  function Sort<T>(s: seq<T>, le: (T, T) -> bool): (r: seq<T>)
    ensures multiset(r) == multiset(s)
    decreases |s|
  {
    if |s| == 0 then []
    else
      assert s == [s[0]] + s[1..];
      Insert(s[0], Sort(s[1..], le), le)
  }

  lemma SortKeepsLength<T>(s: seq<T>, le: (T, T) -> bool)
    ensures |Sort(s, le)| == |s|
  {
    assert |multiset(Sort(s, le))| == |multiset(s)|;
  }

  lemma SortKeepsMembers<T>(s: seq<T>, le: (T, T) -> bool)
    ensures forall x :: x in Sort(s, le) <==> x in s
  {
    var r := Sort(s, le);
    forall x
      ensures x in r <==> x in s
    {
      assert x in r <==> x in multiset(r);
      assert x in s <==> x in multiset(s);
    }
  }

  lemma InsertMembers<T>(x: T, s: seq<T>, le: (T, T) -> bool)
    ensures forall y :: y in Insert(x, s, le) <==> y == x || y in s
  {
    var r := Insert(x, s, le);
    forall y
      ensures y in r <==> y == x || y in s
    {
      assert y in r <==> y in multiset(r);
      assert y in s <==> y in multiset(s);
    }
  }

  /** In a sorted sequence the head is `le` every later element. */
  lemma HeadFirst<T>(s: seq<T>, le: (T, T) -> bool)
    requires |s| > 0 && SortedBy(s, le)
    ensures forall y :: y in s[1..] ==> le(s[0], y)
  {
    forall y | y in s[1..]
      ensures le(s[0], y)
    {
      var k :| 0 <= k < |s[1..]| && s[1..][k] == y;
      assert s[k + 1] == y;
    }
  }

  /** An element `le` every element of a sorted sequence can go in front. */
  lemma PrependSorted<T>(a: T, t: seq<T>, le: (T, T) -> bool)
    requires SortedBy(t, le) && forall y :: y in t ==> le(a, y)
    ensures SortedBy([a] + t, le)
  {
    var r := [a] + t;
    forall i, j | 0 <= i < j < |r|
      ensures le(r[i], r[j])
    {
      assert r[j] == t[j - 1];
      if i > 0 {
        assert r[i] == t[i - 1];
      }
    }
  }

  lemma {:induction false} InsertSorted<T(!new)>(x: T, s: seq<T>, le: (T, T) -> bool)
    requires TotalPreorder(le) && SortedBy(s, le)
    ensures SortedBy(Insert(x, s, le), le)
    decreases |s|
  {
    if |s| == 0 || le(x, s[0]) {
      if |s| > 0 {
        HeadFirst(s, le);
        assert s == [s[0]] + s[1..];
      }
      PrependSorted(x, s, le);
    } else {
      var t := Insert(x, s[1..], le);
      InsertSorted(x, s[1..], le);
      InsertMembers(x, s[1..], le);
      HeadFirst(s, le);
      assert le(s[0], x);
      PrependSorted(s[0], t, le);
    }
  }

  /** The result of `Sort` is ordered by `le`. */
  lemma {:induction false} SortSorted<T(!new)>(s: seq<T>, le: (T, T) -> bool)
    requires TotalPreorder(le)
    ensures SortedBy(Sort(s, le), le)
    decreases |s|
  {
    if |s| > 0 {
      SortSorted(s[1..], le);
      InsertSorted(s[0], Sort(s[1..], le), le);
    }
  }

  /** In a sequence sorted then tie-ordered, the head precedes every
      later element in both orders. */
  lemma HeadFirstThenBy<T>(s: seq<T>, le: (T, T) -> bool, tie: (T, T) -> bool)
    requires |s| > 0 && SortedThenBy(s, le, tie)
    ensures forall y :: y in s[1..] ==> le(s[0], y) && (le(y, s[0]) ==> tie(s[0], y))
  {
    forall y | y in s[1..]
      ensures le(s[0], y) && (le(y, s[0]) ==> tie(s[0], y))
    {
      var k :| 0 <= k < |s[1..]| && s[1..][k] == y;
      assert s[k + 1] == y;
    }
  }

  lemma PrependThenBy<T>(a: T, t: seq<T>, le: (T, T) -> bool, tie: (T, T) -> bool)
    requires SortedThenBy(t, le, tie)
    requires forall y :: y in t ==> le(a, y) && (le(y, a) ==> tie(a, y))
    ensures SortedThenBy([a] + t, le, tie)
  {
    var r := [a] + t;
    forall i, j | 0 <= i < j < |r|
      ensures le(r[i], r[j]) && (le(r[j], r[i]) ==> tie(r[i], r[j]))
    {
      assert r[j] == t[j - 1];
      if i > 0 {
        assert r[i] == t[i - 1];
      }
    }
  }

  lemma {:induction false} InsertThenBy<T(!new)>(x: T, s: seq<T>, le: (T, T) -> bool, tie: (T, T) -> bool)
    requires TotalPreorder(le) && SortedThenBy(s, le, tie)
    requires forall y :: y in s ==> tie(x, y)
    ensures SortedThenBy(Insert(x, s, le), le, tie)
    decreases |s|
  {
    if |s| == 0 || le(x, s[0]) {
      if |s| > 0 {
        HeadFirstThenBy(s, le, tie);
        assert s == [s[0]] + s[1..];
      }
      PrependThenBy(x, s, le, tie);
    } else {
      var t := Insert(x, s[1..], le);
      assert forall y :: y in s[1..] ==> y in s;
      InsertThenBy(x, s[1..], le, tie);
      InsertMembers(x, s[1..], le);
      HeadFirstThenBy(s, le, tie);
      assert le(s[0], x) && !le(x, s[0]);
      PrependThenBy(s[0], t, le, tie);
    }
  }

  /** Stability: sorting a sequence already in `tie` order leaves the
      elements `le` ranks equal in `tie` order. */
  lemma {:induction false} SortThenBy<T(!new)>(s: seq<T>, le: (T, T) -> bool, tie: (T, T) -> bool)
    requires TotalPreorder(le) && SortedBy(s, tie)
    ensures SortedThenBy(Sort(s, le), le, tie)
    decreases |s|
  {
    if |s| > 0 {
      var rest := Sort(s[1..], le);
      SortThenBy(s[1..], le, tie);
      SortKeepsMembers(s[1..], le);
      forall y | y in rest
        ensures tie(s[0], y)
      {
        var k :| 0 <= k < |s[1..]| && s[1..][k] == y;
        assert s[k + 1] == y;
      }
      InsertThenBy(s[0], rest, le, tie);
    }
  }
}
