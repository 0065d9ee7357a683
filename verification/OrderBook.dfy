/** BookReconstructor: a book kept as two price-to-size maps, rebuilt from snapshots and diffs. */
module OrderBook {
  import opened Common

  datatype Level = Level(price: string, size: string)

  type Side = map<string, string>

  datatype Diff = Diff(bids: seq<Level>, asks: seq<Level>)

  datatype Book = Book(bids: Side, asks: Side)

  /** The fields of a BookReconstructor that decide its behaviour; lastSeq == 0 means "unset". */
  datatype BookState = BookState(book: Book, lastSeq: int)

  const EMPTY_BOOK := Book(map[], map[])

  /** The removal test: only the exact strings "0" and "" delete a level. */
  predicate Removes(size: string) {
    size == "0" || size == ""
  }

  function ApplyLevel(side: Side, level: Level): Side {
    if Removes(level.size) then side - {level.price} else side[level.price := level.size]
  }

  function ApplyLevels(side: Side, levels: seq<Level>): Side {
    if levels == [] then side
    else ApplyLevel(ApplyLevels(side, levels[..|levels| - 1]), levels[|levels| - 1])
  }

  /** A snapshot's levels are stored as they come: the removal test is not applied to them. */
  function SnapshotSide(levels: seq<Level>): Side {
    if levels == [] then map[]
    else
      var last := levels[|levels| - 1];
      SnapshotSide(levels[..|levels| - 1])[last.price := last.size]
  }

  function ApplyDiffTo(book: Book, diff: Diff): Book {
    Book(ApplyLevels(book.bids, diff.bids), ApplyLevels(book.asks, diff.asks))
  }

  function SnapshotBook(snapshot: Diff): Book {
    Book(SnapshotSide(snapshot.bids), SnapshotSide(snapshot.asks))
  }

  datatype Verdict = Stale | Gap | Accepted

  /** How ApplyDiff treats a sequence number. */
  function Classify(lastSeq: int, id: int): Verdict {
    if lastSeq != 0 && id <= lastSeq then Stale
    else if lastSeq != 0 && id > lastSeq + 1 then Gap
    else Accepted
  }

  function DiffStep(st: BookState, id: int, diff: Diff): BookState {
    if Classify(st.lastSeq, id).Accepted? then BookState(ApplyDiffTo(st.book, diff), id) else st
  }

  /** Outside the unset state exactly the successor id is accepted, and each larger one is a gap. */
  lemma ClassifyExactly(lastSeq: int, id: int)
    ensures Classify(lastSeq, id) == Accepted <==> lastSeq == 0 || id == lastSeq + 1
    ensures Classify(lastSeq, id) == Gap <==> lastSeq != 0 && id > lastSeq + 1
  {
  }

  // ----- What a list of levels does to one price: the last writer wins -----

  predicate TouchesPrice(levels: seq<Level>, price: string) {
    exists i :: 0 <= i < |levels| && levels[i].price == price
  }

  /** Index of the last level that names the price, or None. */
  function LastWrite(levels: seq<Level>, price: string): (r: Option<nat>)
    ensures r.None? <==> !TouchesPrice(levels, price)
    ensures r.Some? ==>
              && r.value < |levels|
              && levels[r.value].price == price
              && forall j :: r.value < j < |levels| ==> levels[j].price != price
  {
    if levels == [] then None
    else if levels[|levels| - 1].price == price then Some(|levels| - 1)
    else
      var before := LastWrite(levels[..|levels| - 1], price);
      assert forall i :: 0 <= i < |levels| - 1 ==> levels[..|levels| - 1][i] == levels[i];
      before
  }

  /** The size a level list leaves at a price it names: none if the last level for it removes. */
  function Written(levels: seq<Level>, price: string): Option<string>
    requires TouchesPrice(levels, price)
  {
    var size := levels[LastWrite(levels, price).value].size;
    if Removes(size) then None else Some(size)
  }

  lemma {:induction false} ApplyLevelsLastWriterWins(side: Side, levels: seq<Level>, price: string)
    ensures Lookup(ApplyLevels(side, levels), price)
         == if TouchesPrice(levels, price) then Written(levels, price) else Lookup(side, price)
  {
    if levels != [] {
      var front := levels[..|levels| - 1];
      ApplyLevelsLastWriterWins(side, front, price);
      if levels[|levels| - 1].price != price {
        assert LastWrite(levels, price) == LastWrite(front, price);
      }
    }
  }

  lemma {:induction false} SnapshotLastWriterWins(levels: seq<Level>, price: string)
    ensures Lookup(SnapshotSide(levels), price)
         == match LastWrite(levels, price) { case None => None case Some(i) => Some(levels[i].size) }
  {
    if levels != [] {
      SnapshotLastWriterWins(levels[..|levels| - 1], price);
    }
  }

  // ----- The same in the words of the wire format -----

  /**
   * `after` is `side` with the levels applied, as far as this price goes: the last level that names it
   * deletes it if its size reads "0" or nothing and sets it to its size otherwise; unnamed it stays.
   */
  predicate PriceAfter(side: Side, levels: seq<Level>, after: Side, price: string) {
    && (forall i :: 0 <= i < |levels| && levels[i].price == price && (forall j :: i < j < |levels| ==> levels[j].price != price) ==>
          if levels[i].size == "0" || levels[i].size == "" then price !in after
          else price in after && after[price] == levels[i].size)
    && ((forall i :: 0 <= i < |levels| ==> levels[i].price != price) ==> Lookup(after, price) == Lookup(side, price))
  }

  lemma ApplyLevelsPriceAfter(side: Side, levels: seq<Level>, price: string)
    ensures PriceAfter(side, levels, ApplyLevels(side, levels), price)
  {
    ApplyLevelsLastWriterWins(side, levels, price);
    var after := ApplyLevels(side, levels);
    forall i | 0 <= i < |levels| && levels[i].price == price && (forall j :: i < j < |levels| ==> levels[j].price != price)
      ensures if levels[i].size == "0" || levels[i].size == "" then price !in after
              else price in after && after[price] == levels[i].size
    {
      assert LastWrite(levels, price) == Some(i);
    }
  }

  /** The first diff after a reset, and the next one in turn, change both sides as their levels say; any other changes nothing. */
  lemma DiffStepExactly(st: BookState, id: int, diff: Diff, price: string)
    ensures st.lastSeq == 0 || id == st.lastSeq + 1 ==>
              var after := DiffStep(st, id, diff);
              && after.lastSeq == id
              && PriceAfter(st.book.bids, diff.bids, after.book.bids, price)
              && PriceAfter(st.book.asks, diff.asks, after.book.asks, price)
    ensures !(st.lastSeq == 0 || id == st.lastSeq + 1) ==> DiffStep(st, id, diff) == st
  {
    ApplyLevelsPriceAfter(st.book.bids, diff.bids, price);
    ApplyLevelsPriceAfter(st.book.asks, diff.asks, price);
  }
}
