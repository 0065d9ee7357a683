/** The order Go's < puts on strings. */
module Lex {
  import Sorting

  predicate Less(a: string, b: string) {
    |b| > 0 && (|a| == 0 || a[0] < b[0] || (a[0] == b[0] && Less(a[1..], b[1..])))
  }

  lemma {:induction false} LessTrans(a: string, b: string, c: string)
    requires Less(a, b) && Less(b, c)
    ensures Less(a, c)
  {
    if |a| > 0 && a[0] == b[0] == c[0] {
      LessTrans(a[1..], b[1..], c[1..]);
    }
  }

  lemma {:induction false} LessAsym(a: string, b: string)
    requires Less(a, b)
    ensures !Less(b, a)
  {
    if |a| > 0 && a[0] == b[0] {
      LessAsym(a[1..], b[1..]);
    }
  }

  lemma {:induction false} LessTotal(a: string, b: string)
    ensures Less(a, b) || a == b || Less(b, a)
  {
    if |a| > 0 && |b| > 0 && a[0] == b[0] {
      LessTotal(a[1..], b[1..]);
      assert a == [a[0]] + a[1..] && b == [b[0]] + b[1..];
    }
  }

  // ----- Strictly sorted lists of strings -----

  predicate Ascending(s: seq<string>) {
    forall i, j :: 0 <= i < j < |s| ==> Less(s[i], s[j])
  }

  lemma LessIsStrict()
    ensures Sorting.StrictOrder(Less)
  {
    forall a | Less(a, a) ensures false { LessAsym(a, a); }
    forall a, b, c | Less(a, b) && Less(b, c) ensures Less(a, c) { LessTrans(a, b, c); }
  }

  function Insert(x: string, s: seq<string>): (r: seq<string>)
    requires Ascending(s) && x !in s
    ensures Ascending(r) && |r| == |s| + 1
    ensures forall y :: y in r <==> y == x || y in s
  {
    LessIsStrict();
    assert forall y :: y in s ==> Less(x, y) || Less(y, x) by {
      forall y | y in s ensures Less(x, y) || Less(y, x) { LessTotal(x, y); }
    }
    Sorting.Insert(x, s, Less)
  }

  ghost function Sorted(keys: set<string>): (r: seq<string>)
    ensures Ascending(r) && |r| == |keys|
    ensures forall y :: y in r <==> y in keys
  {
    if keys == {} then []
    else
      var k :| k in keys;
      Insert(k, Sorted(keys - {k}))
  }

  lemma AscendingUnique(a: seq<string>, b: seq<string>)
    requires Ascending(a) && Ascending(b)
    requires forall x :: x in a <==> x in b
    ensures a == b
  {
    LessIsStrict();
    Sorting.SortedUnique(a, b, Less);
  }

  /** sort.Strings on the keys of a map, collected in any order. */
  method SortKeys(keys: set<string>) returns (r: seq<string>)
    ensures r == Sorted(keys)
  {
    r := [];
    var rest := keys;
    while rest != {}
      invariant rest <= keys && Ascending(r)
      invariant forall y :: y in r <==> y in keys && y !in rest
      decreases rest
    {
      var k :| k in rest;
      r := Insert(k, r);
      rest := rest - {k};
    }
    AscendingUnique(r, Sorted(keys));
  }
}
