/** What retries, duplicates and several orders do to the recorded fills. */
module Fills {
  import opened Store

  /** One call of RecordFill with its clock reading. */
  datatype Call = Call(fill: Fill, now: nat)

  function AsOps(calls: seq<Call>): seq<Op> {
    seq(|calls|, i requires 0 <= i < |calls| => RecordFill(calls[i].fill, calls[i].now))
  }

  function StoredFills(calls: seq<Call>): seq<Fill> {
    MemRun(AsOps(calls)).fills
  }

  function Reply(calls: seq<Call>, i: nat): bool
    requires i < |calls|
  {
    MemStep(MemRun(AsOps(calls)[..i]), AsOps(calls)[i]).1 == Recorded(true)
  }

  /** No earlier call carries the same venue and trade id. */
  predicate IsFirst(calls: seq<Call>, i: nat)
    requires i < |calls|
  {
    forall j :: 0 <= j < i ==> !SameTrade(calls[j].fill, calls[i].fill)
  }

  /** The first call of every trade, in call order, as stamped at that call. */
  function Firsts(calls: seq<Call>): seq<Fill> {
    if calls == [] then []
    else
      var last := |calls| - 1;
      Firsts(calls[..last]) + if IsFirst(calls, last) then [StampFill(calls[last].fill, calls[last].now)] else []
  }

  lemma {:induction false} FirstsHasTrade(calls: seq<Call>, f: Fill)
    ensures HasTrade(Firsts(calls), f) <==> exists i :: 0 <= i < |calls| && SameTrade(calls[i].fill, f)
  {
    if calls != [] {
      var front, last := calls[..|calls| - 1], |calls| - 1;
      FirstsHasTrade(front, f);
      FirstsHasTrade(front, calls[last].fill);
      assert forall i :: 0 <= i < last ==> front[i] == calls[i];
      var older := Firsts(front);
      if HasTrade(older, f) {
        var i :| 0 <= i < |older| && SameTrade(older[i], f);
        assert Firsts(calls)[i] == older[i];
      }
      if SameTrade(calls[last].fill, f) {
        if IsFirst(calls, last) {
          assert SameTrade(Firsts(calls)[|older|], f);
        } else {
          var j :| 0 <= j < last && SameTrade(calls[j].fill, calls[last].fill);
          assert SameTrade(front[j].fill, f);
        }
      }
      if HasTrade(Firsts(calls), f) {
        var i :| 0 <= i < |Firsts(calls)| && SameTrade(Firsts(calls)[i], f);
        if i < |older| {
          assert SameTrade(older[i], f);
        } else {
          assert SameTrade(calls[last].fill, f);
        }
      }
    }
  }

  /** First writer wins: the list is exactly the first call of each trade, and only those calls return true. */
  lemma {:induction false} FirstWriterWins(calls: seq<Call>)
    ensures StoredFills(calls) == Firsts(calls)
    ensures forall i :: 0 <= i < |calls| ==> (Reply(calls, i) <==> IsFirst(calls, i))
  {
    if calls != [] {
      var front, last := calls[..|calls| - 1], |calls| - 1;
      FirstWriterWins(front);
      assert AsOps(calls)[..last] == AsOps(front);
      FirstsHasTrade(front, calls[last].fill);
      assert forall j :: 0 <= j < last ==> front[j] == calls[j];
      forall i | 0 <= i < last
        ensures Reply(calls, i) <==> IsFirst(calls, i)
      {
        assert AsOps(calls)[..i] == AsOps(front)[..i];
        assert IsFirst(front, i) <==> IsFirst(calls, i);
        assert Reply(front, i) <==> IsFirst(front, i);
      }
      assert HasTrade(Firsts(front), calls[last].fill) <==> !IsFirst(calls, last);
    }
  }

  /** Row by row: the list holds the first calls in call order, each unchanged but for a time it lacked. */
  predicate RowsOf(rows: seq<Fill>, calls: seq<Call>, firsts: seq<nat>) {
    && |rows| == |firsts|
    && (forall k :: 0 <= k < |rows| ==> firsts[k] < |calls| && IsFirst(calls, firsts[k]))
    && (forall k, l :: 0 <= k < l < |rows| ==> firsts[k] < firsts[l])
    && (forall k :: 0 <= k < |rows| ==> KeptFill(rows[k], calls[firsts[k]].fill, calls[firsts[k]].now))
  }

  lemma RowsLater(rows: seq<Fill>, front: seq<Call>, last: Call, firsts: seq<nat>)
    requires RowsOf(rows, front, firsts)
    ensures RowsOf(rows, front + [last], firsts)
    ensures IsFirst(front + [last], |front|) ==> RowsOf(rows + [StampFill(last.fill, last.now)], front + [last], firsts + [|front|])
  {
    var calls := front + [last];
    forall i | 0 <= i < |front| && IsFirst(front, i) ensures IsFirst(calls, i) {
      assert forall j :: 0 <= j <= i ==> calls[j] == front[j];
    }
    assert forall k :: 0 <= k < |rows| ==> calls[firsts[k]] == front[firsts[k]];
    assert calls[|front|] == last;
  }

  lemma FirstsBefore(front: seq<Call>, last: Call, i: nat)
    requires i < |front|
    ensures IsFirst(front + [last], i) <==> IsFirst(front, i)
  {
    assert forall j :: 0 <= j <= i ==> (front + [last])[j] == front[j];
  }

  /** firsts are the indices of the first calls, in order, and rows what they were stored as. */
  predicate RowsOfFirsts(rows: seq<Fill>, calls: seq<Call>, firsts: seq<nat>) {
    RowsOf(rows, calls, firsts) && forall i :: 0 <= i < |calls| ==> (i in firsts <==> IsFirst(calls, i))
  }

  lemma NextRow(rows: seq<Fill>, front: seq<Call>, last: Call, firsts: seq<nat>)
    requires RowsOfFirsts(rows, front, firsts)
    ensures var calls := front + [last];
      if IsFirst(calls, |front|)
      then RowsOfFirsts(rows + [StampFill(last.fill, last.now)], calls, firsts + [|front|])
      else RowsOfFirsts(rows, calls, firsts)
  {
    RowsLater(rows, front, last, firsts);
    forall i | 0 <= i < |front| ensures IsFirst(front + [last], i) <==> IsFirst(front, i) {
      FirstsBefore(front, last, i);
    }
    assert forall k :: 0 <= k < |firsts| ==> firsts[k] < |front|;
  }

  lemma FirstsLast(front: seq<Call>, last: Call)
    ensures Firsts(front + [last])
         == if IsFirst(front + [last], |front|) then Firsts(front) + [StampFill(last.fill, last.now)] else Firsts(front)
  {
    assert (front + [last])[..|front|] == front;
    assert Firsts(front) + [] == Firsts(front);
  }

  lemma {:induction false} FirstRows(calls: seq<Call>) returns (firsts: seq<nat>)
    ensures RowsOfFirsts(Firsts(calls), calls, firsts)
  {
    firsts := [];
    if calls != [] {
      var front, last := calls[..|calls| - 1], calls[|calls| - 1];
      assert calls == front + [last];
      var before := FirstRows(front);
      NextRow(Firsts(front), front, last, before);
      FirstsLast(front, last);
      firsts := if IsFirst(calls, |front|) then before + [|front|] else before;
    }
  }

  /** The recorded list, row by row: nothing about a fill is changed on its way in but a missing time. */
  lemma StoredUnchanged(calls: seq<Call>) returns (firsts: seq<nat>)
    ensures RowsOf(StoredFills(calls), calls, firsts)
    ensures forall i :: 0 <= i < |calls| ==> (i in firsts <==> IsFirst(calls, i))
  {
    FirstWriterWins(calls);
    firsts := FirstRows(calls);
  }

  /** true is returned exactly once per trade: for the first call that carries it. */
  lemma TrueExactlyOnce(calls: seq<Call>, i: nat)
    requires i < |calls|
    ensures exists j :: 0 <= j <= i && SameTrade(calls[j].fill, calls[i].fill) && Reply(calls, j)
    ensures forall j :: 0 <= j < |calls| && Reply(calls, j) && SameTrade(calls[j].fill, calls[i].fill) ==> IsFirst(calls, j)
    ensures forall j, k :: 0 <= j < k < |calls| && Reply(calls, j) && Reply(calls, k) ==> !SameTrade(calls[j].fill, calls[k].fill)
  {
    FirstWriterWins(calls);
    var j := FirstOf(calls, i);
    assert Reply(calls, j);
  }

  lemma {:induction false} FirstOf(calls: seq<Call>, i: nat) returns (j: nat)
    requires i < |calls|
    ensures j <= i && SameTrade(calls[j].fill, calls[i].fill) && IsFirst(calls, j)
  {
    if IsFirst(calls, i) {
      j := i;
    } else {
      var k :| 0 <= k < i && SameTrade(calls[k].fill, calls[i].fill);
      j := FirstOf(calls, k);
    }
  }

  // ----- Orders partition the fills -----

  /** The fills of several orders one after the other. */
  function FillsForAll(fills: seq<Fill>, ids: seq<string>): seq<Fill> {
    if ids == [] then [] else FillsForAll(fills, ids[..|ids| - 1]) + FillsFor(fills, ids[|ids| - 1])
  }

  predicate DistinctIds(ids: seq<string>) {
    forall i, j :: 0 <= i < j < |ids| ==> ids[i] != ids[j]
  }

  predicate Covers(ids: seq<string>, fills: seq<Fill>) {
    forall i :: 0 <= i < |fills| ==> fills[i].venueOrderID in ids
  }

  lemma FillsForLast(fills: seq<Fill>, f: Fill, id: string)
    ensures FillsFor(fills + [f], id) == if f.venueOrderID == id then FillsFor(fills, id) + [f] else FillsFor(fills, id)
  {
    assert (fills + [f])[..|fills|] == fills;
  }

  /** more reports what fills reports, and f after the other fills of its order. */
  ghost predicate ReportsAlso(more: seq<Fill>, fills: seq<Fill>, f: Fill) {
    forall id :: FillsFor(more, id) == if f.venueOrderID == id then FillsFor(fills, id) + [f] else FillsFor(fills, id)
  }

  lemma AppendReports(fills: seq<Fill>, f: Fill)
    ensures ReportsAlso(fills + [f], fills, f)
  {
    forall id
      ensures FillsFor(fills + [f], id) == if f.venueOrderID == id then FillsFor(fills, id) + [f] else FillsFor(fills, id)
    {
      FillsForLast(fills, f, id);
    }
  }

  lemma MemberOfFront(ids: seq<string>, id: string)
    requires ids != [] && DistinctIds(ids)
    ensures id in ids <==> id in ids[..|ids| - 1] || id == ids[|ids| - 1]
    ensures !(id in ids[..|ids| - 1] && id == ids[|ids| - 1])
  {
    assert ids == ids[..|ids| - 1] + [ids[|ids| - 1]];
  }

  lemma {:induction false} OneMoreFill(fills: seq<Fill>, more: seq<Fill>, f: Fill, ids: seq<string>)
    requires DistinctIds(ids) && ReportsAlso(more, fills, f)
    ensures multiset(FillsForAll(more, ids))
         == multiset(FillsForAll(fills, ids)) + if f.venueOrderID in ids then multiset{f} else multiset{}
  {
    if ids != [] {
      var front, last := ids[..|ids| - 1], ids[|ids| - 1];
      OneMoreFill(fills, more, f, front);
      MemberOfFront(ids, f.venueOrderID);
    }
  }

  /** FillsForOrder over all order ids gives back every recorded fill once. */
  lemma {:induction false} OrdersPartitionFills(fills: seq<Fill>, ids: seq<string>)
    requires DistinctIds(ids) && Covers(ids, fills)
    ensures multiset(FillsForAll(fills, ids)) == multiset(fills)
  {
    if fills == [] {
      NoFills(ids);
    } else {
      var front, last := fills[..|fills| - 1], fills[|fills| - 1];
      assert fills == front + [last];
      OrdersPartitionFills(front, ids);
      AppendReports(front, last);
      OneMoreFill(front, fills, last, ids);
    }
  }

  lemma {:induction false} NoFills(ids: seq<string>)
    ensures FillsForAll([], ids) == []
  {
    if ids != [] {
      NoFills(ids[..|ids| - 1]);
    }
  }

  function Sum(fills: seq<Fill>, amount: Fill -> int): int {
    if fills == [] then 0 else Sum(fills[..|fills| - 1], amount) + amount(fills[|fills| - 1])
  }

  /** Total over the orders of what FillsForOrder reports. */
  function SumOverOrders(fills: seq<Fill>, ids: seq<string>, amount: Fill -> int): int {
    if ids == [] then 0
    else SumOverOrders(fills, ids[..|ids| - 1], amount) + Sum(FillsFor(fills, ids[|ids| - 1]), amount)
  }

  lemma SumLast(fills: seq<Fill>, f: Fill, amount: Fill -> int)
    ensures Sum(fills + [f], amount) == Sum(fills, amount) + amount(f)
  {
    assert (fills + [f])[..|fills|] == fills;
  }

  lemma {:induction false} OneMoreAmount(fills: seq<Fill>, more: seq<Fill>, f: Fill, ids: seq<string>, amount: Fill -> int)
    requires DistinctIds(ids) && ReportsAlso(more, fills, f)
    ensures SumOverOrders(more, ids, amount)
         == SumOverOrders(fills, ids, amount) + if f.venueOrderID in ids then amount(f) else 0
  {
    if ids != [] {
      var front, last := ids[..|ids| - 1], ids[|ids| - 1];
      OneMoreAmount(fills, more, f, front, amount);
      MemberOfFront(ids, f.venueOrderID);
      SumLast(FillsFor(fills, last), f, amount);
    }
  }

  /** Quantities, fees, or any other amount: the per-order totals add up to the total over distinct trades. */
  lemma {:induction false} TotalsAddUp(fills: seq<Fill>, ids: seq<string>, amount: Fill -> int)
    requires DistinctIds(ids) && Covers(ids, fills)
    ensures SumOverOrders(fills, ids, amount) == Sum(fills, amount)
  {
    if fills == [] {
      NoAmount(ids, amount);
    } else {
      var front, last := fills[..|fills| - 1], fills[|fills| - 1];
      assert fills == front + [last];
      TotalsAddUp(front, ids, amount);
      AppendReports(front, last);
      OneMoreAmount(front, fills, last, ids, amount);
      SumLast(front, last, amount);
    }
  }

  lemma {:induction false} NoAmount(ids: seq<string>, amount: Fill -> int)
    ensures SumOverOrders([], ids, amount) == 0
  {
    if ids != [] {
      NoAmount(ids[..|ids| - 1], amount);
    }
  }

  /** Retries never change a total: what the orders report adds up to one contribution per trade. */
  lemma RetriesConserveTotals(calls: seq<Call>, ids: seq<string>, amount: Fill -> int)
    requires DistinctIds(ids) && Covers(ids, StoredFills(calls))
    ensures SumOverOrders(StoredFills(calls), ids, amount) == Sum(Firsts(calls), amount)
  {
    FirstWriterWins(calls);
    TotalsAddUp(StoredFills(calls), ids, amount);
  }

  /** The amount over the first calls of every trade, as the callers gave it. */
  function SumGiven(calls: seq<Call>, amount: Fill -> int): int {
    if calls == [] then 0
    else
      var last := |calls| - 1;
      SumGiven(calls[..last], amount) + if IsFirst(calls, last) then amount(calls[last].fill) else 0
  }

  /** The quantity, price, fee or any amount that does not depend on the time is conserved from the callers' fills. */
  lemma AmountsConserved(calls: seq<Call>, ids: seq<string>, amount: Fill -> int)
    requires DistinctIds(ids) && Covers(ids, StoredFills(calls))
    requires forall row, f: Fill, now: nat :: KeptFill(row, f, now) ==> amount(row) == amount(f)
    ensures SumOverOrders(StoredFills(calls), ids, amount) == SumGiven(calls, amount)
  {
    RetriesConserveTotals(calls, ids, amount);
    FirstsSum(calls, amount);
  }

  lemma {:induction false} FirstsSum(calls: seq<Call>, amount: Fill -> int)
    requires forall row, f: Fill, now: nat :: KeptFill(row, f, now) ==> amount(row) == amount(f)
    ensures Sum(Firsts(calls), amount) == SumGiven(calls, amount)
  {
    if calls != [] {
      var last := |calls| - 1;
      FirstsSum(calls[..last], amount);
      var row := StampFill(calls[last].fill, calls[last].now);
      assert KeptFill(row, calls[last].fill, calls[last].now);
      SumLast(Firsts(calls[..last]), row, amount);
      if !IsFirst(calls, last) {
        assert Firsts(calls) == Firsts(calls[..last]);
      }
    }
  }
}
