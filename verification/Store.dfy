/** The in-memory store and the PostgreSQL tables it stands in for. Amounts are integers, 0 is the zero time. */
module Store {
  import opened Common

  datatype Order = Order(
    venueOrderID: string, clientOrderID: string, venue: string, pair: string, side: string, orderType: string,
    status: string, filledQty: int, avgPrice: int, quantity: int, price: int, createdAt: nat, updatedAt: nat)

  datatype Fill = Fill(
    venueOrderID: string, tradeID: string, venue: string, pair: string,
    price: int, quantity: int, fee: int, feeAsset: string, ts: nat)

  /** Both stores stamp a row before they keep it, reading the clock twice for an order. */
  function StampOrder(o: Order, now: nat, later: nat): Order {
    o.(createdAt := if o.createdAt == 0 then now else o.createdAt, updatedAt := later)
  }

  function StampFill(f: Fill, now: nat): Fill {
    f.(ts := if f.ts == 0 then now else f.ts)
  }

  predicate SameTrade(a: Fill, b: Fill) {
    a.venue == b.venue && a.tradeID == b.tradeID
  }

  predicate HasTrade(fills: seq<Fill>, f: Fill) {
    exists i :: 0 <= i < |fills| && SameTrade(fills[i], f)
  }

  function FillsFor(fills: seq<Fill>, venueOrderID: string): seq<Fill> {
    if fills == [] then []
    else
      var last := fills[|fills| - 1];
      FillsFor(fills[..|fills| - 1], venueOrderID) + if last.venueOrderID == venueOrderID then [last] else []
  }

  datatype Op =
    | RecordOrder(order: Order, now: nat, later: nat)
    | GetOrderByClientID(clientOrderID: string)
    | RecordFill(fill: Fill, now: nat)
    | FillsForOrder(venueOrderID: string)

  /** Fills are compared without order: one store keeps insertion order, the other sorts by time. */
  datatype Reply = Recorded(isNew: bool) | Failure | Found(order: Option<Order>) | Listed(fills: multiset<Fill>)

  // ----- MemStore -----

  datatype Mem = Mem(orders: map<string, Order>, fills: seq<Fill>)

  function MemStep(s: Mem, op: Op): (Mem, Reply) {
    match op
    case RecordOrder(o, now, later) =>
      if o.clientOrderID in s.orders then (s, Recorded(false))
      else (s.(orders := s.orders[o.clientOrderID := StampOrder(o, now, later)]), Recorded(true))
    case GetOrderByClientID(id) => (s, Found(Lookup(s.orders, id)))
    case RecordFill(f, now) =>
      if HasTrade(s.fills, f) then (s, Recorded(false))
      else (s.(fills := s.fills + [StampFill(f, now)]), Recorded(true))
    case FillsForOrder(id) => (s, Listed(multiset(FillsFor(s.fills, id))))
  }

  class MemStore {
    var orders: map<string, Order>
    var fills: seq<Fill>

    function State(): Mem
      reads this
    {
      Mem(orders, fills)
    }

    constructor ()
      ensures State() == Mem(map[], [])
    {
      orders, fills := map[], [];
    }

    method RecordOrder(o: Order, now: nat, later: nat) returns (isNew: bool)
      modifies this
      ensures (State(), Recorded(isNew)) == MemStep(old(State()), Op.RecordOrder(o, now, later))
    {
      if o.clientOrderID in orders {
        return false;
      }
      var stored := o;
      if stored.createdAt == 0 {
        stored := stored.(createdAt := now);
      }
      stored := stored.(updatedAt := later);
      orders := orders[stored.clientOrderID := stored];
      return true;
    }

    method GetOrderByClientID(id: string) returns (r: Option<Order>)
      ensures Found(r) == MemStep(State(), Op.GetOrderByClientID(id)).1
    {
      r := if id in orders then Some(orders[id]) else None;
    }

    method RecordFill(f: Fill, now: nat) returns (isNew: bool)
      modifies this
      ensures (State(), Recorded(isNew)) == MemStep(old(State()), Op.RecordFill(f, now))
    {
      for i := 0 to |fills|
        invariant fills == old(fills) && orders == old(orders)
        invariant forall j :: 0 <= j < i ==> !SameTrade(fills[j], f)
      {
        if fills[i].venue == f.venue && fills[i].tradeID == f.tradeID {
          assert SameTrade(fills[i], f);
          return false;
        }
      }
      var stored := f;
      if stored.ts == 0 {
        stored := stored.(ts := now);
      }
      fills := fills + [stored];
      return true;
    }

    method FillsForOrder(id: string) returns (out: seq<Fill>)
      ensures out == FillsFor(fills, id)
    {
      out := [];
      for i := 0 to |fills|
        invariant out == FillsFor(fills[..i], id)
      {
        assert fills[..i + 1][..i] == fills[..i];
        if fills[i].venueOrderID == id {
          out := out + [fills[i]];
        }
      }
      assert fills[..|fills|] == fills;
    }
  }

  // ----- The tables with their unique constraints -----

  datatype Tables = Tables(orders: seq<Order>, fills: seq<Fill>)

  /** orders: PRIMARY KEY (venue_order_id). */
  predicate UniqueKeys(rows: seq<Order>) {
    forall i, j :: 0 <= i < j < |rows| ==> rows[i].venueOrderID != rows[j].venueOrderID
  }

  /** orders: UNIQUE (venue, client_order_id). */
  predicate UniqueClients(rows: seq<Order>) {
    forall i, j :: 0 <= i < j < |rows| ==> rows[i].venue != rows[j].venue || rows[i].clientOrderID != rows[j].clientOrderID
  }

  /** fills: UNIQUE (venue, trade_id). */
  predicate UniqueTrades(rows: seq<Fill>) {
    forall i, j :: 0 <= i < j < |rows| ==> rows[i].venue != rows[j].venue || rows[i].tradeID != rows[j].tradeID
  }

  predicate Conflicts(rows: seq<Order>, o: Order) {
    exists i :: 0 <= i < |rows| && rows[i].venue == o.venue && rows[i].clientOrderID == o.clientOrderID
  }

  predicate TakesKey(rows: seq<Order>, o: Order) {
    exists i :: 0 <= i < |rows| && rows[i].venueOrderID == o.venueOrderID
  }

  /** Some row with that client order id; the query does not say which. */
  function FirstRow(rows: seq<Order>, clientOrderID: string): (r: Option<Order>)
    ensures r.None? <==> forall i :: 0 <= i < |rows| ==> rows[i].clientOrderID != clientOrderID
    ensures r.Some? ==> r.value in rows && r.value.clientOrderID == clientOrderID
  {
    if rows == [] then None
    else if rows[0].clientOrderID == clientOrderID then Some(rows[0])
    else FirstRow(rows[1..], clientOrderID)
  }

  /**
   * A row goes in if the table with it still meets its constraints. ON CONFLICT (venue, client_order_id)
   * DO NOTHING does not cover the primary key: that conflict is an error.
   */
  function SqlStep(s: Tables, op: Op): (Tables, Reply) {
    match op
    case RecordOrder(o, now, later) =>
      var rows := s.orders + [StampOrder(o, now, later)];
      if !UniqueClients(rows) then (s, Recorded(false))
      else if !UniqueKeys(rows) then (s, Failure)
      else (s.(orders := rows), Recorded(true))
    case GetOrderByClientID(id) => (s, Found(FirstRow(s.orders, id)))
    case RecordFill(f, now) =>
      var rows := s.fills + [StampFill(f, now)];
      if !UniqueTrades(rows) then (s, Recorded(false)) else (s.(fills := rows), Recorded(true))
    case FillsForOrder(id) => (s, Listed(multiset(FillsFor(s.fills, id))))
  }

  // ----- Where the two agree -----

  function MemRun(ops: seq<Op>): Mem {
    if ops == [] then Mem(map[], []) else MemStep(MemRun(ops[..|ops| - 1]), ops[|ops| - 1]).0
  }

  function SqlRun(ops: seq<Op>): Tables {
    if ops == [] then Tables([], []) else SqlStep(SqlRun(ops[..|ops| - 1]), ops[|ops| - 1]).0
  }

  /** The reply to the last operation is the same from both. */
  predicate SameReply(before: seq<Op>, op: Op) {
    MemStep(MemRun(before), op).1 == SqlStep(SqlRun(before), op).1
  }

  /**
   * What a caller can check beforehand: a known client order id comes with the venue it was first
   * recorded for, and a new one with a venue order id not recorded yet.
   */
  predicate Compatible(s: Mem, op: Op) {
    op.RecordOrder? ==>
      if op.order.clientOrderID in s.orders then s.orders[op.order.clientOrderID].venue == op.order.venue
      else forall c :: c in s.orders ==> s.orders[c].venueOrderID != op.order.venueOrderID
  }

  ghost predicate Mirrors(m: Mem, t: Tables) {
    && m.fills == t.fills && UniqueTrades(t.fills) && UniqueClients(t.orders) && UniqueKeys(t.orders)
    && (forall i :: 0 <= i < |t.orders| ==> Lookup(m.orders, t.orders[i].clientOrderID) == Some(t.orders[i]))
    && (forall c :: c in m.orders ==> m.orders[c].clientOrderID == c && m.orders[c] in t.orders)
  }

  /** The constraints refuse exactly the row that meets a like one. */
  lemma OrderRefusedExactly(rows: seq<Order>, o: Order)
    requires UniqueClients(rows) && UniqueKeys(rows)
    ensures UniqueClients(rows + [o]) <==> !Conflicts(rows, o)
    ensures UniqueKeys(rows + [o]) <==> !TakesKey(rows, o)
  {
    var more := rows + [o];
    assert forall i :: 0 <= i < |rows| ==> more[i] == rows[i];
    assert more[|rows|] == o;
  }

  /** The UNIQUE constraint refuses exactly the fill that MemStore's scan finds. */
  lemma FillRefusedExactly(rows: seq<Fill>, f: Fill)
    requires UniqueTrades(rows)
    ensures UniqueTrades(rows + [f]) <==> !HasTrade(rows, f)
  {
    var more := rows + [f];
    assert forall i :: 0 <= i < |rows| ==> more[i] == rows[i];
    assert more[|rows|] == f;
  }

  lemma StepAgreesExactly(m: Mem, t: Tables, op: Op)
    requires Mirrors(m, t)
    ensures MemStep(m, op).1 == SqlStep(t, op).1 <==> Compatible(m, op)
    ensures Compatible(m, op) ==> Mirrors(MemStep(m, op).0, SqlStep(t, op).0)
  {
    match op {
      case RecordOrder(o, now, later) =>
        OrderRefusedExactly(t.orders, StampOrder(o, now, later));
        assert Conflicts(t.orders, StampOrder(o, now, later)) <==> Conflicts(t.orders, o);
        assert TakesKey(t.orders, StampOrder(o, now, later)) <==> TakesKey(t.orders, o);
        if o.clientOrderID in m.orders {
          var row := m.orders[o.clientOrderID];
          var i :| 0 <= i < |t.orders| && t.orders[i] == row;
          assert Conflicts(t.orders, o) <==> row.venue == o.venue;
        } else {
          assert !Conflicts(t.orders, o);
          forall c | c in m.orders && m.orders[c].venueOrderID == o.venueOrderID
            ensures TakesKey(t.orders, o)
          {
            var i :| 0 <= i < |t.orders| && t.orders[i] == m.orders[c];
          }
        }
      case GetOrderByClientID(id) =>
        if id in m.orders {
          var i :| 0 <= i < |t.orders| && t.orders[i] == m.orders[id];
        }
      case RecordFill(f, now) =>
        FillRefusedExactly(t.fills, StampFill(f, now));
        assert HasTrade(t.fills, StampFill(f, now)) <==> HasTrade(t.fills, f);
      case _ =>
    }
  }

  /** Every operation of the run is compatible with what was recorded before it. */
  predicate Friendly(ops: seq<Op>) {
    ops == [] || (Friendly(ops[..|ops| - 1]) && Compatible(MemRun(ops[..|ops| - 1]), ops[|ops| - 1]))
  }

  /** Every operation of the run gets the same reply from both stores. */
  predicate AllRepliesAgree(ops: seq<Op>) {
    ops == [] || (AllRepliesAgree(ops[..|ops| - 1]) && SameReply(ops[..|ops| - 1], ops[|ops| - 1]))
  }

  /** Over a whole run the two stores give the same replies exactly if every operation was compatible. */
  lemma {:induction false} StoresAgreeExactly(ops: seq<Op>)
    ensures AllRepliesAgree(ops) <==> Friendly(ops)
    ensures Friendly(ops) ==> Mirrors(MemRun(ops), SqlRun(ops))
  {
    if ops != [] {
      var front := ops[..|ops| - 1];
      StoresAgreeExactly(front);
      if Friendly(front) {
        StepAgreesExactly(MemRun(front), SqlRun(front), ops[|ops| - 1]);
      }
    }
  }

  /** One venue, and distinct venue order ids for distinct client order ids. */
  predicate OneVenueDistinctIds(ops: seq<Op>) {
    forall i, j :: 0 <= i < |ops| && 0 <= j < |ops| && ops[i].RecordOrder? && ops[j].RecordOrder? ==>
      && ops[i].order.venue == ops[j].order.venue
      && (ops[i].order.clientOrderID != ops[j].order.clientOrderID ==> ops[i].order.venueOrderID != ops[j].order.venueOrderID)
  }

  /** Every stored order came from a call. */
  lemma {:induction false} StoredOrderOrigin(ops: seq<Op>, c: string) returns (i: nat)
    requires c in MemRun(ops).orders
    ensures i < |ops| && ops[i].RecordOrder? && ops[i].order.clientOrderID == c
    ensures MemRun(ops).orders[c] == StampOrder(ops[i].order, ops[i].now, ops[i].later)
  {
    var front := ops[..|ops| - 1];
    if c in MemRun(front).orders {
      i := StoredOrderOrigin(front, c);
    } else {
      i := |ops| - 1;
    }
  }

  lemma {:induction false} OneVenueIsFriendly(ops: seq<Op>)
    requires OneVenueDistinctIds(ops)
    ensures Friendly(ops)
  {
    if ops != [] {
      var front, op := ops[..|ops| - 1], ops[|ops| - 1];
      assert forall i :: 0 <= i < |front| ==> front[i] == ops[i];
      OneVenueIsFriendly(front);
      forall c | op.RecordOrder? && c in MemRun(front).orders
        ensures MemRun(front).orders[c].venue == op.order.venue
        ensures c != op.order.clientOrderID ==> MemRun(front).orders[c].venueOrderID != op.order.venueOrderID
      {
        var i := StoredOrderOrigin(front, c);
        assert front[i] == ops[i];
      }
    }
  }

  /** The replies really differ: another venue reusing a client id, and a venue order id used twice. */
  lemma StoresCanDisagree(o: Order, now: nat, venue: string, client: string)
    requires venue != o.venue && client != o.clientOrderID
    ensures !AllRepliesAgree([RecordOrder(o, now, now), RecordOrder(o.(venue := venue), now, now)])
    ensures !AllRepliesAgree([RecordOrder(o, now, now), RecordOrder(o.(clientOrderID := client), now, now)])
  {
    var stored := MemStep(Mem(map[], []), RecordOrder(o, now, now)).0;
    assert o.clientOrderID in stored.orders;
    SecondReplyDiffers(RecordOrder(o, now, now), RecordOrder(o.(venue := venue), now, now));
    SecondReplyDiffers(RecordOrder(o, now, now), RecordOrder(o.(clientOrderID := client), now, now));
  }

  lemma SecondReplyDiffers(first: Op, second: Op)
    requires first.RecordOrder? && second.RecordOrder?
    requires !Compatible(MemStep(Mem(map[], []), first).0, second)
    ensures !AllRepliesAgree([first, second])
  {
    assert [first, second][..1] == [first] && [first][..0] == [];
    assert MemRun([first]) == MemStep(Mem(map[], []), first).0;
    StoresAgreeExactly([first, second]);
  }

  // ----- What is stored, told from the calls and the replies -----

  /** The row is the order of the call in every field; a creation time that was given is kept. */
  predicate KeptOrder(row: Order, o: Order, now: nat, later: nat) {
    && row.venueOrderID == o.venueOrderID && row.clientOrderID == o.clientOrderID && row.venue == o.venue
    && row.pair == o.pair && row.side == o.side && row.orderType == o.orderType && row.status == o.status
    && row.filledQty == o.filledQty && row.avgPrice == o.avgPrice && row.quantity == o.quantity && row.price == o.price
    && row.createdAt == (if o.createdAt == 0 then now else o.createdAt) && row.updatedAt == later
  }

  /** The row is the fill of the call in every field; a time that was given is kept. */
  predicate KeptFill(row: Fill, f: Fill, now: nat) {
    && row.venueOrderID == f.venueOrderID && row.tradeID == f.tradeID && row.venue == f.venue && row.pair == f.pair
    && row.price == f.price && row.quantity == f.quantity && row.fee == f.fee && row.feeAsset == f.feeAsset
    && row.ts == (if f.ts == 0 then now else f.ts)
  }

  predicate RecordsClient(op: Op, c: string) {
    op.RecordOrder? && op.order.clientOrderID == c
  }

  /** The first operation that records an order for this client order id. */
  predicate IsFirstFor(ops: seq<Op>, c: string, i: nat) {
    && i < |ops| && RecordsClient(ops[i], c)
    && forall j :: 0 <= j < i ==> !RecordsClient(ops[j], c)
  }

  /** What a run leaves under a client order id: nothing if no call named it, else the order of the first that did. */
  predicate HoldsFirst(ops: seq<Op>, c: string, found: Option<Order>) {
    && ((forall i :: 0 <= i < |ops| ==> !RecordsClient(ops[i], c)) ==> found == None)
    && forall i :: 0 <= i < |ops| && IsFirstFor(ops, c, i) ==>
         found.Some? && KeptOrder(found.value, ops[i].order, ops[i].now, ops[i].later)
  }

  lemma HoldsFirstLater(front: seq<Op>, last: Op, c: string, found: Option<Order>)
    requires HoldsFirst(front, c, found)
    ensures !RecordsClient(last, c) || found.Some? ==> HoldsFirst(front + [last], c, found)
    ensures RecordsClient(last, c) && (forall i :: 0 <= i < |front| ==> !RecordsClient(front[i], c)) ==>
              HoldsFirst(front + [last], c, Some(StampOrder(last.order, last.now, last.later)))
  {
    var ops := front + [last];
    assert forall i :: 0 <= i < |front| ==> ops[i] == front[i];
    assert ops[|front|] == last;
    forall i | 0 <= i < |front| && IsFirstFor(ops, c, i) ensures IsFirstFor(front, c, i) {
      assert forall j :: 0 <= j < i ==> front[j] == ops[j];
    }
    if exists i :: 0 <= i < |front| && RecordsClient(front[i], c) {
      var i :| 0 <= i < |front| && RecordsClient(front[i], c);
      assert RecordsClient(ops[i], c) && !IsFirstFor(ops, c, |front|);
    }
  }

  lemma {:induction false} SomeCallOrNone(ops: seq<Op>, c: string)
    ensures c in MemRun(ops).orders <==> exists i :: 0 <= i < |ops| && RecordsClient(ops[i], c)
  {
    if ops != [] {
      var front, last := ops[..|ops| - 1], |ops| - 1;
      SomeCallOrNone(front, c);
      assert forall i :: 0 <= i < last ==> front[i] == ops[i];
      if c in MemRun(front).orders {
        var i :| 0 <= i < |front| && RecordsClient(front[i], c);
        assert RecordsClient(ops[i], c);
      }
    }
  }

  lemma {:induction false} OrdersHoldFirst(ops: seq<Op>, c: string)
    ensures HoldsFirst(ops, c, Lookup(MemRun(ops).orders, c))
  {
    if ops != [] {
      var front, last := ops[..|ops| - 1], ops[|ops| - 1];
      assert ops == front + [last];
      OrdersHoldFirst(front, c);
      SomeCallOrNone(front, c);
      HoldsFirstLater(front, last, c, Lookup(MemRun(front).orders, c));
      OrdersAfter(MemRun(front), last, c);
    }
  }

  lemma OrdersAfter(m: Mem, op: Op, c: string)
    ensures Lookup(MemStep(m, op).0.orders, c)
         == if RecordsClient(op, c) && c !in m.orders then Some(StampOrder(op.order, op.now, op.later)) else Lookup(m.orders, c)
  {
  }

  /**
   * First writer wins for orders: RecordOrder reports a new order exactly if no call before it named the
   * client order id, and GetOrderByClientID gives back the order of the first call that did, unchanged
   * in every field but the times it lacked.
   */
  lemma OrdersFirstWriterWins(ops: seq<Op>, o: Order, now: nat, later: nat, c: string)
    ensures MemStep(MemRun(ops), RecordOrder(o, now, later)).1
         == Recorded(forall i :: 0 <= i < |ops| ==> !RecordsClient(ops[i], o.clientOrderID))
    ensures exists found ::
              MemStep(MemRun(ops), GetOrderByClientID(c)).1 == Found(found) && HoldsFirst(ops, c, found)
  {
    SomeCallOrNone(ops, o.clientOrderID);
    OrdersHoldFirst(ops, c);
    assert MemStep(MemRun(ops), GetOrderByClientID(c)).1 == Found(Lookup(MemRun(ops).orders, c));
  }

  /** FillsForOrder lists exactly the recorded fills of the order, each as often as it is recorded. */
  lemma {:induction false} FillsForExactly(fills: seq<Fill>, id: string, f: Fill)
    ensures multiset(FillsFor(fills, id))[f] == if f.venueOrderID == id then multiset(fills)[f] else 0
  {
    if fills != [] {
      var front, last := fills[..|fills| - 1], fills[|fills| - 1];
      FillsForExactly(front, id, f);
      assert fills == front + [last];
    }
  }
}
