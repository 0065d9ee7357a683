/** The mutable BookReconstructor. */
module Reconstructor {
  import opened OrderBook
  import opened TopLevels

  class BookReconstructor {
    var bids: map<string, string>
    var asks: map<string, string>
    var lastSeq: int

    function State(): BookState
      reads this
    {
      BookState(Book(bids, asks), lastSeq)
    }

    constructor ()
      ensures State() == BookState(EMPTY_BOOK, 0)
    {
      bids, asks, lastSeq := map[], map[], 0;
    }

    /** Replaces both sides; lastSeq is left as it was. */
    method ApplySnapshot(snapshot: Diff)
      modifies this
      ensures State() == BookState(SnapshotBook(snapshot), old(lastSeq))
    {
      bids, asks := map[], map[];
      for i := 0 to |snapshot.bids|
        invariant bids == SnapshotSide(snapshot.bids[..i]) && asks == map[] && lastSeq == old(lastSeq)
      {
        assert snapshot.bids[..i + 1][..i] == snapshot.bids[..i];
        bids := bids[snapshot.bids[i].price := snapshot.bids[i].size];
      }
      assert snapshot.bids[..|snapshot.bids|] == snapshot.bids;
      for i := 0 to |snapshot.asks|
        invariant asks == SnapshotSide(snapshot.asks[..i])
        invariant bids == SnapshotSide(snapshot.bids) && lastSeq == old(lastSeq)
      {
        assert snapshot.asks[..i + 1][..i] == snapshot.asks[..i];
        asks := asks[snapshot.asks[i].price := snapshot.asks[i].size];
      }
      assert snapshot.asks[..|snapshot.asks|] == snapshot.asks;
    }

    /** Returns (accepted, gap); a stale or gapped diff changes nothing. */
    method ApplyDiff(id: int, diff: Diff) returns (ok: bool, gap: bool)
      modifies this
      ensures ok <==> old(lastSeq) == 0 || id == old(lastSeq) + 1
      ensures gap <==> old(lastSeq) != 0 && id > old(lastSeq) + 1
      ensures State() == DiffStep(old(State()), id, diff)
      ensures ok ==> lastSeq == id
      ensures ok ==> forall price :: PriceAfter(old(bids), diff.bids, bids, price) && PriceAfter(old(asks), diff.asks, asks, price)
      ensures !ok ==> State() == old(State())
    {
      if lastSeq != 0 && id <= lastSeq {
        return false, false;
      }
      if lastSeq != 0 && id > lastSeq + 1 {
        return false, true;
      }
      for i := 0 to |diff.bids|
        invariant bids == ApplyLevels(old(bids), diff.bids[..i])
        invariant asks == old(asks) && lastSeq == old(lastSeq)
      {
        assert diff.bids[..i + 1][..i] == diff.bids[..i];
        var level := diff.bids[i];
        if level.size == "0" || level.size == "" {
          bids := bids - {level.price};
        } else {
          bids := bids[level.price := level.size];
        }
      }
      assert diff.bids[..|diff.bids|] == diff.bids;
      for i := 0 to |diff.asks|
        invariant asks == ApplyLevels(old(asks), diff.asks[..i])
        invariant bids == ApplyLevels(old(bids), diff.bids) && lastSeq == old(lastSeq)
      {
        assert diff.asks[..i + 1][..i] == diff.asks[..i];
        var level := diff.asks[i];
        if level.size == "0" || level.size == "" {
          asks := asks - {level.price};
        } else {
          asks := asks[level.price := level.size];
        }
      }
      assert diff.asks[..|diff.asks|] == diff.asks;
      lastSeq := id;
      forall price
        ensures PriceAfter(old(bids), diff.bids, bids, price) && PriceAfter(old(asks), diff.asks, asks, price)
      {
        ApplyLevelsPriceAfter(old(bids), diff.bids, price);
        ApplyLevelsPriceAfter(old(asks), diff.asks, price);
      }
      return true, false;
    }

    /** The book stays; only the sequence number is forgotten. */
    method MarkGap()
      modifies this
      ensures State() == BookState(old(State()).book, 0)
    {
      lastSeq := 0;
    }

    method TopN(n: nat) returns (topBids: seq<Level>, topAsks: seq<Level>)
      ensures topBids == Top(bids, true, n)
      ensures topAsks == Top(asks, false, n)
    {
      topBids := CollectLevels(bids, true, n);
      topAsks := CollectLevels(asks, false, n);
    }
  }
}
