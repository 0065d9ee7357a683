/** Lists kept in strict order by insertion, for any order. */
module Sorting {

  /** Nothing comes before itself, and what comes before what comes before also does. */
  ghost predicate StrictOrder<T(!new)>(less: (T, T) -> bool) {
    && (forall x :: !less(x, x))
    && (forall x, y, z :: less(x, y) && less(y, z) ==> less(x, z))
  }

  predicate Sorted<T>(s: seq<T>, less: (T, T) -> bool) {
    forall i, j :: 0 <= i < j < |s| ==> less(s[i], s[j])
  }

  function Insert<T(!new)>(x: T, s: seq<T>, less: (T, T) -> bool): (r: seq<T>)
    requires StrictOrder(less) && Sorted(s, less)
    requires forall y :: y in s ==> less(x, y) || less(y, x)
    ensures Sorted(r, less) && |r| == |s| + 1
    ensures forall y :: y in r <==> y == x || y in s
  {
    if s == [] then [x]
    else if less(x, s[0]) then [x] + s
    else
      var rest := Insert(x, s[1..], less);
      assert less(s[0], x) by { assert s[0] in s; }
      assert forall y :: y in s <==> y == s[0] || y in s[1..];
      assert forall y :: y in rest ==> less(s[0], y);
      [s[0]] + rest
  }

  lemma HeadOnce<T(!new)>(a: seq<T>, less: (T, T) -> bool)
    requires StrictOrder(less) && Sorted(a, less) && a != []
    ensures forall x :: x in a[1..] <==> x in a && x != a[0]
  {
  }

  lemma SameHead<T(!new)>(a: seq<T>, b: seq<T>, less: (T, T) -> bool)
    requires StrictOrder(less) && Sorted(a, less) && Sorted(b, less) && a != [] && b != []
    requires a[0] in b && b[0] in a
    ensures a[0] == b[0]
  {
  }

  /** A set of elements has one sorted list. */
  lemma {:induction false} SortedUnique<T(!new)>(a: seq<T>, b: seq<T>, less: (T, T) -> bool)
    requires StrictOrder(less) && Sorted(a, less) && Sorted(b, less)
    requires forall x :: x in a <==> x in b
    ensures a == b
  {
    assert a != [] ==> a[0] in a;
    assert b != [] ==> b[0] in b;
    if a != [] && b != [] {
      SameHead(a, b, less);
      HeadOnce(a, less);
      HeadOnce(b, less);
      SortedUnique(a[1..], b[1..], less);
    }
  }
}
