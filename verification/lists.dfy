/** Python's list comprehensions `[f(x) for x in xs]` and
    `[x for x in xs if keep(x)]`, with the facts the listings need about
    them. */
module Lists {
  import opened Sorting

  function Map<T, U>(s: seq<T>, f: T -> U): (r: seq<U>)
    ensures |r| == |s|
    ensures forall i :: 0 <= i < |s| ==> r[i] == f(s[i])
  {
    seq(|s|, i requires 0 <= i < |s| => f(s[i]))
  }

  /** `[x for x in s if keep(x)]`: every kept element exactly as often as
      `s` holds it, and no other. */
  function Filter<T(!new)>(s: seq<T>, keep: T -> bool): (r: seq<T>)
    ensures forall x :: x in r <==> x in s && keep(x)
    ensures forall x :: multiset(r)[x] == if keep(x) then multiset(s)[x] else 0
    decreases |s|
  {
    if |s| == 0 then []
    else
      assert s == [s[0]] + s[1..];
      if keep(s[0]) then [s[0]] + Filter(s[1..], keep) else Filter(s[1..], keep)
  }

  /** The comprehension keeps the order of `s`: filtering a concatenation
      filters each part in turn. */
  lemma {:induction false} FilterConcat<T(!new)>(a: seq<T>, b: seq<T>, keep: T -> bool)
    ensures Filter(a + b, keep) == Filter(a, keep) + Filter(b, keep)
    decreases |a|
  {
    if |a| == 0 {
      assert a + b == b;
    } else {
      var ab := a + b;
      assert ab[0] == a[0] && ab[1..] == a[1..] + b;
      FilterConcat(a[1..], b, keep);
      if keep(a[0]) {
        calc {
          Filter(ab, keep);
          [a[0]] + Filter(a[1..] + b, keep);
          [a[0]] + (Filter(a[1..], keep) + Filter(b, keep));
          ([a[0]] + Filter(a[1..], keep)) + Filter(b, keep);
        }
      }
    }
  }

  /** An element of the mapped list is the image of an element of the
      list, and every image appears. */
  lemma MapMembers<T, U>(s: seq<T>, f: T -> U)
    ensures forall y :: y in Map(s, f) <==> exists x :: x in s && y == f(x)
  {
    var r := Map(s, f);
    forall y
      ensures y in r <==> exists x :: x in s && y == f(x)
    {
      if y in r {
        var i :| 0 <= i < |r| && r[i] == y;
        assert s[i] in s;
      }
      if exists x :: x in s && y == f(x) {
        var x :| x in s && y == f(x);
        var i :| 0 <= i < |s| && s[i] == x;
        assert r[i] == y;
      }
    }
  }

  /** Mapping a list that holds exactly the elements satisfying `keep`,
      then sorting, gives exactly their images. */
  lemma SortedMapMembers<T, U>(s: seq<T>, keep: T -> bool, f: T -> U, le: (U, U) -> bool)
    requires forall x :: x in s <==> keep(x)
    ensures forall y :: y in Sort(Map(s, f), le) <==> exists x :: keep(x) && y == f(x)
  {
    SortKeepsMembers(Map(s, f), le);
    MapMembers(s, f);
  }

  /** Two lists paired position by position through `built`, where each
      element of `kept` builds one value only: the values are exactly
      those some element of `kept` builds. */
  lemma PairedMembers<T, U(!new)>(kept: seq<T>, images: seq<U>, built: (T, U) -> bool)
    requires |images| == |kept|
    requires forall i :: 0 <= i < |kept| ==> built(kept[i], images[i])
    requires forall i, y :: 0 <= i < |kept| && built(kept[i], y) ==> y == images[i]
    ensures forall y :: y in images <==> exists x :: x in kept && built(x, y)
  {
    forall y
      ensures y in images <==> exists x :: x in kept && built(x, y)
    {
      if y in images {
        var i :| 0 <= i < |images| && images[i] == y;
        assert kept[i] in kept;
      }
      if exists x :: x in kept && built(x, y) {
        var x :| x in kept && built(x, y);
        var i :| 0 <= i < |kept| && kept[i] == x;
        assert images[i] == y;
      }
    }
  }
}
