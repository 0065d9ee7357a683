/** TopN: collecting one side of a book out of a map and sorting it in place. */
module TopLevels {
  import opened Common
  import opened OrderBook
  import Lex
  import Sorting

  /** The comparison of sortLevels: bids descend, asks ascend. */
  predicate Before(a: string, b: string, descending: bool) {
    if descending then Lex.Less(b, a) else Lex.Less(a, b)
  }

  lemma BeforeTrans(a: string, b: string, c: string, descending: bool)
    requires Before(a, b, descending) && Before(b, c, descending)
    ensures Before(a, c, descending)
  {
    if descending { Lex.LessTrans(c, b, a); } else { Lex.LessTrans(a, b, c); }
  }

  lemma BeforeTotal(a: string, b: string, descending: bool)
    ensures Before(a, b, descending) ==> !Before(b, a, descending)
    ensures Before(a, b, descending) || a == b || Before(b, a, descending)
  {
    Lex.LessTotal(a, b);
    if Lex.Less(a, b) { Lex.LessAsym(a, b); }
    if Lex.Less(b, a) { Lex.LessAsym(b, a); }
  }

  predicate Ordered(levels: seq<Level>, descending: bool) {
    forall i, j :: 0 <= i < j < |levels| ==> Before(levels[i].price, levels[j].price, descending)
  }

  ghost predicate HoldsExactly(side: Side, levels: seq<Level>) {
    forall x: Level :: x in levels <==> x.price in side && side[x.price] == x.size
  }

  /** The whole side in its one strict order. */
  ghost predicate IsRanking(side: Side, descending: bool, levels: seq<Level>) {
    Ordered(levels, descending) && HoldsExactly(side, levels) && |levels| == |side|
  }

  function ByPrice(descending: bool): (Level, Level) -> bool {
    (a: Level, b: Level) => Before(a.price, b.price, descending)
  }

  lemma ByPriceIsStrict(descending: bool)
    ensures Sorting.StrictOrder(ByPrice(descending))
  {
    var less := ByPrice(descending);
    forall a | less(a, a) ensures false { BeforeTotal(a.price, a.price, descending); }
    forall a, b, c | less(a, b) && less(b, c) ensures less(a, c) { BeforeTrans(a.price, b.price, c.price, descending); }
  }

  function Insert(level: Level, levels: seq<Level>, descending: bool): (r: seq<Level>)
    requires Ordered(levels, descending)
    requires forall x :: x in levels ==> x.price != level.price
    ensures Ordered(r, descending) && |r| == |levels| + 1
    ensures forall x :: x in r <==> x == level || x in levels
  {
    var less := ByPrice(descending);
    ByPriceIsStrict(descending);
    assert forall x :: x in levels ==> less(level, x) || less(x, level) by {
      forall x | x in levels ensures less(level, x) || less(x, level) { BeforeTotal(level.price, x.price, descending); }
    }
    assert Sorting.Sorted(levels, less);
    var r := Sorting.Insert(level, levels, less);
    assert forall i, j :: 0 <= i < j < |r| ==> less(r[i], r[j]);
    r
  }

  ghost function Ranked(side: Side, descending: bool): (r: seq<Level>)
    ensures IsRanking(side, descending, r)
    decreases |side|
  {
    if |side| == 0 then []
    else
      var k :| k in side;
      var rest := side - {k};
      assert |rest| == |side| - 1 by {
        assert rest.Keys == side.Keys - {k};
        assert |rest.Keys| == |rest| && |side.Keys| == |side|;
      }
      Insert(Level(k, side[k]), Ranked(rest, descending), descending)
  }

  ghost function Top(side: Side, descending: bool, n: nat): seq<Level> {
    Ranked(side, descending)[..Min(n, |side|)]
  }

  lemma OrderedUnique(a: seq<Level>, b: seq<Level>, descending: bool)
    requires Ordered(a, descending) && Ordered(b, descending)
    requires forall x :: x in a <==> x in b
    ensures a == b
  {
    ByPriceIsStrict(descending);
    Sorting.SortedUnique(a, b, ByPrice(descending));
  }

  /** A selection of n levels in strict order, all from the map, that no omitted key beats. */
  ghost predicate IsBestSelection(side: Side, descending: bool, n: nat, levels: seq<Level>) {
    && Ordered(levels, descending)
    && |levels| == Min(n, |side|)
    && (forall x :: x in levels ==> x.price in side && side[x.price] == x.size)
    && (forall k, x :: k in side && x in levels && Level(k, side[k]) !in levels ==> Before(x.price, k, descending))
  }

  lemma TopIsABestSelection(side: Side, descending: bool, n: nat)
    ensures IsBestSelection(side, descending, n, Top(side, descending, n))
  {
    var all, top := Ranked(side, descending), Top(side, descending, n);
    assert forall x :: x in top ==> x in all;
    forall k, x | k in side && x in top && Level(k, side[k]) !in top
      ensures Before(x.price, k, descending)
    {
      assert Level(k, side[k]) in all;
      var i :| 0 <= i < |top| && top[i] == x;
      var j :| 0 <= j < |all| && all[j] == Level(k, side[k]);
      assert all[i] == x;
      assert j < |top| ==> top[j] in top;
    }
  }

  lemma BestSelectionIsTop(side: Side, descending: bool, n: nat, levels: seq<Level>)
    requires IsBestSelection(side, descending, n, levels)
    ensures levels == Top(side, descending, n)
  {
    var rest := side - set x | x in levels :: x.price;
    var others := Ranked(rest, descending);
    SelectionBeforeOthers(side, descending, n, levels, others);
    forall x: Level
      ensures x in levels + others <==> x in Ranked(side, descending)
    {
      if x.price in side && x.price !in rest {
        var y :| y in levels && y.price == x.price;
      }
      assert x in levels + others <==> x in levels || x in others;
    }
    OrderedUnique(levels + others, Ranked(side, descending), descending);
    assert levels == (levels + others)[..|levels|];
  }

  lemma SelectionBeforeOthers(side: Side, descending: bool, n: nat, levels: seq<Level>, others: seq<Level>)
    requires IsBestSelection(side, descending, n, levels)
    requires IsRanking(side - set x | x in levels :: x.price, descending, others)
    ensures Ordered(levels + others, descending)
  {
    forall i, j | 0 <= i < |levels| && 0 <= j < |others|
      ensures Before(levels[i].price, others[j].price, descending)
    {
      assert others[j] in others && levels[i] in levels;
      var k := others[j].price;
      assert Level(k, side[k]) !in levels;
    }
  }

  /** The best selection exists and is unique: it is Top. */
  lemma TopIsTheBestSelection(side: Side, descending: bool, n: nat, levels: seq<Level>)
    ensures IsBestSelection(side, descending, n, levels) <==> levels == Top(side, descending, n)
  {
    TopIsABestSelection(side, descending, n);
    if IsBestSelection(side, descending, n, levels) {
      BestSelectionIsTop(side, descending, n, levels);
    }
  }

  lemma TopPrefix(side: Side, descending: bool, n: nat, m: nat)
    requires n <= m
    ensures Top(side, descending, n) <= Top(side, descending, m)
  {
  }

  /** The first level of a non-empty side: every other key comes after it. */
  lemma TopHead(side: Side, descending: bool, n: nat)
    requires n > 0 && |side| > 0
    ensures var top := Top(side, descending, n);
      && top != [] && top[0].price in side && side[top[0].price] == top[0].size
      && forall k :: k in side && k != top[0].price ==> Before(top[0].price, k, descending)
  {
    var top := Top(side, descending, n);
    TopIsTheBestSelection(side, descending, n, top);
    assert top[0] in top;
    forall k | k in side && k != top[0].price
      ensures Before(top[0].price, k, descending)
    {
      if Level(k, side[k]) in top {
        var j :| 0 <= j < |top| && top[j] == Level(k, side[k]);
        assert j > 0;
      }
    }
  }

  // ----- The in-place sort -----

  predicate NoneLater(levels: seq<Level>, descending: bool) {
    forall i, j :: 0 <= i < j < |levels| ==> !Before(levels[j].price, levels[i].price, descending)
  }

  /** Sorted but for position j, which may still have to move down. */
  predicate SortedBut(levels: seq<Level>, j: nat, descending: bool) {
    forall p, q :: 0 <= p < q < |levels| && q != j ==> !Before(levels[q].price, levels[p].price, descending)
  }

  lemma SettledBelow(t: seq<Level>, j: nat, descending: bool)
    requires 0 < j < |t| && Before(t[j - 1].price, t[j].price, descending)
    requires SortedBut(t, j, descending)
    ensures NoneLater(t, descending)
  {
    forall p | 0 <= p < j
      ensures !Before(t[j].price, t[p].price, descending)
    {
      BeforeTotal(t[j - 1].price, t[j].price, descending);
      if Before(t[j].price, t[p].price, descending) {
        BeforeTrans(t[j - 1].price, t[j].price, t[p].price, descending);
      }
    }
  }

  lemma SwapDown(t: seq<Level>, u: seq<Level>, j: nat, descending: bool)
    requires 0 < j < |t| && SortedBut(t, j, descending)
    requires !Before(t[j - 1].price, t[j].price, descending)
    requires u == t[j - 1 := t[j]][j := t[j - 1]]
    ensures SortedBut(u, j - 1, descending)
  {
  }

  method Swap(s: array<Level>, j: nat)
    requires 0 < j < s.Length
    modifies s
    ensures s[..] == old(s[..])[j - 1 := old(s[j])][j := old(s[j - 1])]
    ensures multiset(s[..]) == multiset(old(s[..]))
  {
    s[j - 1], s[j] := s[j], s[j - 1];
  }

  /** The inner loop: element i moves down until the one before it comes first. Equal keys are swapped too. */
  method MoveDown(s: array<Level>, i: nat, descending: bool)
    requires i < s.Length && NoneLater(s[..i], descending)
    modifies s
    ensures multiset(s[..]) == multiset(old(s[..]))
    ensures NoneLater(s[..i + 1], descending)
  {
    var j := i;
    while j > 0
      invariant 0 <= j <= i
      invariant multiset(s[..]) == multiset(old(s[..]))
      invariant SortedBut(s[..i + 1], j, descending)
    {
      var less := Before(s[j - 1].price, s[j].price, descending);
      if less {
        SettledBelow(s[..i + 1], j, descending);
        break;
      }
      ghost var t := s[..i + 1];
      Swap(s, j);
      SwapDown(t, s[..i + 1], j, descending);
      j := j - 1;
    }
  }

  /** Insertion sort with an early break. */
  method SortLevels(s: array<Level>, descending: bool)
    modifies s
    ensures multiset(s[..]) == multiset(old(s[..]))
    ensures NoneLater(s[..], descending)
  {
    var i := 1;
    while i < s.Length
      invariant 1 <= i
      invariant multiset(s[..]) == multiset(old(s[..]))
      invariant NoneLater(s[..Min(i, s.Length)], descending)
    {
      MoveDown(s, i, descending);
      i := i + 1;
    }
    assert s[..Min(i, s.Length)] == s[..];
  }

  lemma TwiceInMultiset(levels: seq<Level>, i: nat, j: nat)
    requires i < j < |levels| && levels[i] == levels[j]
    ensures multiset(levels)[levels[i]] >= 2
  {
    assert levels == levels[..i] + [levels[i]] + levels[i + 1..j] + [levels[j]] + levels[j + 1..];
  }

  lemma SortedLevelsAreRanked(side: Side, levels: seq<Level>, descending: bool)
    requires NoneLater(levels, descending) && HoldsExactly(side, levels)
    requires forall x :: multiset(levels)[x] <= 1
    ensures levels == Ranked(side, descending)
  {
    forall i, j | 0 <= i < j < |levels|
      ensures Before(levels[i].price, levels[j].price, descending)
    {
      assert levels[i] in levels && levels[j] in levels;
      if levels[i].price == levels[j].price {
        TwiceInMultiset(levels, i, j);
      }
      BeforeTotal(levels[i].price, levels[j].price, descending);
    }
    OrderedUnique(levels, Ranked(side, descending), descending);
  }

  lemma AppendOnce(levels: seq<Level>, x: Level)
    requires x !in levels && forall y :: multiset(levels)[y] <= 1
    ensures forall y :: multiset(levels + [x])[y] <= 1
  {
    assert x !in multiset(levels);
  }

  /** The range over the map, in any order. */
  method Entries(m: Side) returns (out: seq<Level>)
    ensures HoldsExactly(m, out)
    ensures forall x :: multiset(out)[x] <= 1
  {
    out := [];
    var rest := m.Keys;
    while rest != {}
      invariant rest <= m.Keys
      invariant forall x :: x in out <==> x.price in m && x.price !in rest && m[x.price] == x.size
      invariant forall x :: multiset(out)[x] <= 1
      decreases rest
    {
      var k :| k in rest;
      AppendOnce(out, Level(k, m[k]));
      out := out + [Level(k, m[k])];
      rest := rest - {k};
    }
  }

  lemma SortedEntriesAreRanked(side: Side, entries: seq<Level>, sorted: seq<Level>, descending: bool)
    requires HoldsExactly(side, entries) && forall x :: multiset(entries)[x] <= 1
    requires multiset(sorted) == multiset(entries) && NoneLater(sorted, descending)
    ensures sorted == Ranked(side, descending)
  {
    assert forall x :: x in sorted <==> x in multiset(sorted);
    assert forall x :: x in entries <==> x in multiset(entries);
    SortedLevelsAreRanked(side, sorted, descending);
  }

  /** Whatever order the map is iterated in, the result is the same. */
  method CollectLevels(m: Side, descending: bool, n: nat) returns (out: seq<Level>)
    ensures out == Top(m, descending, n)
  {
    var entries := Entries(m);
    var s := new Level[|entries|](i requires 0 <= i < |entries| => entries[i]);
    assert s[..] == entries;
    SortLevels(s, descending);
    SortedEntriesAreRanked(m, entries, s[..], descending);
    out := s[..];
    if |out| > n {
      out := out[..n];
    }
  }
}
