/** When a book rebuilt from a snapshot and a stretch of diffs equals the venue's own book. */
module Convergence {
  import opened Common
  import opened OrderBook

  /** One price level slot of a book: a side and a price. */
  datatype Slot = Slot(isBid: bool, price: string)

  function At(book: Book, slot: Slot): Option<string> {
    Lookup(if slot.isBid then book.bids else book.asks, slot.price)
  }

  function SideOf(diff: Diff, slot: Slot): seq<Level> {
    if slot.isBid then diff.bids else diff.asks
  }

  predicate Touches(diff: Diff, slot: Slot) {
    TouchesPrice(SideOf(diff, slot), slot.price)
  }

  predicate TouchedBy(diffs: seq<Diff>, slot: Slot) {
    exists i :: 0 <= i < |diffs| && Touches(diffs[i], slot)
  }

  function Replay(book: Book, diffs: seq<Diff>): Book {
    if diffs == [] then book
    else ApplyDiffTo(Replay(book, diffs[..|diffs| - 1]), diffs[|diffs| - 1])
  }

  /** The venue's book after update n; updates are numbered from 1 and start from an empty book. */
  function VenueBook(history: seq<Diff>, n: nat): Book
    requires n <= |history|
  {
    Replay(EMPTY_BOOK, history[..n])
  }

  lemma SameSlotsSameBook(a: Book, b: Book)
    requires forall slot :: At(a, slot) == At(b, slot)
    ensures a == b
  {
    forall p: string
      ensures Lookup(a.bids, p) == Lookup(b.bids, p) && Lookup(a.asks, p) == Lookup(b.asks, p)
    {
      assert At(a, Slot(true, p)) == At(b, Slot(true, p));
      assert At(a, Slot(false, p)) == At(b, Slot(false, p));
    }
    SameLookups(a.bids, b.bids);
    SameLookups(a.asks, b.asks);
  }

  /** What a diff does to a slot: its last level there decides, and a slot it does not name stays. */
  lemma DiffEffect(book: Book, diff: Diff, slot: Slot)
    ensures At(ApplyDiffTo(book, diff), slot)
         == if Touches(diff, slot) then Written(SideOf(diff, slot), slot.price) else At(book, slot)
  {
    ApplyLevelsLastWriterWins(if slot.isBid then book.bids else book.asks, SideOf(diff, slot), slot.price);
  }

  /** What a snapshot puts into a slot: the size of its last level there, whatever the old book held. */
  lemma SnapshotEffect(snapshot: Diff, slot: Slot)
    ensures At(SnapshotBook(snapshot), slot)
         == match LastWrite(SideOf(snapshot, slot), slot.price)
            case None => None
            case Some(i) => Some(SideOf(snapshot, slot)[i].size)
  {
    SnapshotLastWriterWins(SideOf(snapshot, slot), slot.price);
  }

  lemma ApplyDiffAgree(a: Book, b: Book, diff: Diff, slot: Slot)
    ensures At(ApplyDiffTo(a, diff), slot) == At(ApplyDiffTo(b, diff), slot)
       <==> Touches(diff, slot) || At(a, slot) == At(b, slot)
  {
    DiffEffect(a, diff, slot);
    DiffEffect(b, diff, slot);
  }

  /** Replaying the same diffs on two books makes a slot agree exactly if a diff names it or it agreed before. */
  lemma {:induction false} ReplayAgree(a: Book, b: Book, diffs: seq<Diff>, slot: Slot)
    ensures At(Replay(a, diffs), slot) == At(Replay(b, diffs), slot)
       <==> TouchedBy(diffs, slot) || At(a, slot) == At(b, slot)
  {
    if diffs != [] {
      var front, last := diffs[..|diffs| - 1], diffs[|diffs| - 1];
      ReplayAgree(a, b, front, slot);
      ApplyDiffAgree(Replay(a, front), Replay(b, front), last, slot);
      assert TouchedBy(diffs, slot) <==> TouchedBy(front, slot) || Touches(last, slot) by {
        assert diffs == front + [last];
        if TouchedBy(front, slot) {
          var i :| 0 <= i < |front| && Touches(front[i], slot);
          assert diffs[i] == front[i];
        }
        if Touches(last, slot) {
          assert diffs[|diffs| - 1] == last;
        }
      }
    }
  }

  lemma {:induction false} ReplayUntouched(book: Book, diffs: seq<Diff>, slot: Slot)
    requires !TouchedBy(diffs, slot)
    ensures At(Replay(book, diffs), slot) == At(book, slot)
  {
    if diffs != [] {
      var front, last := diffs[..|diffs| - 1], diffs[|diffs| - 1];
      assert forall i :: 0 <= i < |front| ==> front[i] == diffs[i];
      ReplayUntouched(book, front, slot);
      assert !Touches(last, slot);
      DiffEffect(Replay(book, front), last, slot);
    }
  }

  lemma {:induction false} ReplayAppend(book: Book, a: seq<Diff>, b: seq<Diff>)
    ensures Replay(book, a + b) == Replay(Replay(book, a), b)
  {
    if b == [] {
      assert a + b == a;
    } else {
      var front := b[..|b| - 1];
      ReplayAppend(book, a, front);
      assert (a + b)[..|a + b| - 1] == a + front;
    }
  }

  lemma VenueSplit(history: seq<Diff>, m: nat, n: nat)
    requires m <= n <= |history|
    ensures VenueBook(history, n) == Replay(VenueBook(history, m), history[m..n])
  {
    ReplayAppend(EMPTY_BOOK, history[..m], history[m..n]);
    assert history[..n] == history[..m] + history[m..n];
  }

  /** Local book after accepting diffs first..last on a base book, whatever that base was. */
  function LocalBook(history: seq<Diff>, base: Book, first: nat, last: nat): Book
    requires 1 <= first <= last + 1 <= |history| + 1
  {
    Replay(base, history[first - 1..last])
  }

  /**
   * The exact state of every slot, for any base book (right, stale, truncated or empty): the local
   * book agrees with the venue there if and only if an accepted diff named the slot or the base
   * already held what the venue held just before the first accepted diff.
   */
  lemma SlotAgreesExactly(history: seq<Diff>, base: Book, first: nat, last: nat, slot: Slot)
    requires 1 <= first <= last + 1 <= |history| + 1
    ensures At(LocalBook(history, base, first, last), slot) == At(VenueBook(history, last), slot)
       <==> TouchedBy(history[first - 1..last], slot) || At(base, slot) == At(VenueBook(history, first - 1), slot)
  {
    VenueSplit(history, first - 1, last);
    ReplayAgree(base, VenueBook(history, first - 1), history[first - 1..last], slot);
  }

  /** A whole book agrees exactly when every slot the accepted diffs leave alone was right in the base. */
  lemma BookAgreesExactly(history: seq<Diff>, base: Book, first: nat, last: nat)
    requires 1 <= first <= last + 1 <= |history| + 1
    ensures LocalBook(history, base, first, last) == VenueBook(history, last)
       <==> forall slot :: !TouchedBy(history[first - 1..last], slot) ==> At(base, slot) == At(VenueBook(history, first - 1), slot)
  {
    forall slot
      ensures At(LocalBook(history, base, first, last), slot) == At(VenueBook(history, last), slot)
         <==> TouchedBy(history[first - 1..last], slot) || At(base, slot) == At(VenueBook(history, first - 1), slot)
    {
      SlotAgreesExactly(history, base, first, last, slot);
    }
    if forall slot :: At(LocalBook(history, base, first, last), slot) == At(VenueBook(history, last), slot) {
      SameSlotsSameBook(LocalBook(history, base, first, last), VenueBook(history, last));
    }
  }

  /** Snapshot taken after update s, diffs first..last replayed on it: overlap is harmless. */
  lemma SnapshotConverges(history: seq<Diff>, s: nat, first: nat, last: nat)
    requires 1 <= first <= s + 1 && s <= last <= |history|
    ensures LocalBook(history, VenueBook(history, s), first, last) == VenueBook(history, last)
  {
    forall slot | !TouchedBy(history[first - 1..last], slot)
      ensures At(VenueBook(history, s), slot) == At(VenueBook(history, first - 1), slot)
    {
      var overlap := history[first - 1..s];
      assert forall i :: 0 <= i < |overlap| ==> overlap[i] == history[first - 1..last][i];
      VenueSplit(history, first - 1, s);
      ReplayUntouched(VenueBook(history, first - 1), overlap, slot);
    }
    BookAgreesExactly(history, VenueBook(history, s), first, last);
  }

  /** A history of the given length in which only update `change` does anything: it adds one bid. */
  function SingleChange(length: nat, change: nat): seq<Diff> {
    seq(length, i => if i + 1 == change then Diff([Level("1", "1")], []) else Diff([], []))
  }

  lemma SingleChangeBook(length: nat, change: nat, n: nat)
    requires 1 <= change <= length && n <= length
    ensures At(VenueBook(SingleChange(length, change), n), Slot(true, "1")) == if n < change then None else Some("1")
  {
    var h, slot := SingleChange(length, change), Slot(true, "1");
    if n < change {
      ReplayUntouched(EMPTY_BOOK, h[..n], slot);
    } else {
      var added := VenueBook(h, change);
      assert h[..change][..change - 1] == h[..change - 1];
      ApplyLevelsLastWriterWins(VenueBook(h, change - 1).bids, h[change - 1].bids, "1");
      assert Touches(h[change - 1], slot) by { assert h[change - 1].bids[0].price == "1"; }
      VenueSplit(h, change, n);
      ReplayUntouched(added, h[change..n], slot);
    }
  }

  ghost predicate AlwaysConverges(s: nat, first: nat, last: nat)
    requires 1 <= first <= last
  {
    forall history: seq<Diff> | s <= |history| && last <= |history| ::
      LocalBook(history, VenueBook(history, s), first, last) == VenueBook(history, last)
  }

  lemma DivergesOutside(s: nat, first: nat, last: nat)
    requires 1 <= first <= last && !(first <= s + 1 && s <= last)
    ensures !AlwaysConverges(s, first, last)
  {
    var length, slot := Max(s, last), Slot(true, "1");
    var change := if s > last then last + 1 else s + 1;
    var h := SingleChange(length, change);
    assert !TouchedBy(h[first - 1..last], slot);
    SingleChangeBook(length, change, s);
    SingleChangeBook(length, change, first - 1);
    SlotAgreesExactly(h, VenueBook(h, s), first, last, slot);
  }

  /**
   * The code never compares the snapshot's id with the diffs. Over all venues the reconstruction is
   * right exactly when the first accepted diff leaves no hole after the snapshot and the last one is
   * not older than it.
   */
  lemma ConvergesExactly(s: nat, first: nat, last: nat)
    requires 1 <= first <= last
    ensures AlwaysConverges(s, first, last) <==> first <= s + 1 && s <= last
  {
    if first <= s + 1 && s <= last {
      forall history: seq<Diff> | s <= |history| && last <= |history|
        ensures LocalBook(history, VenueBook(history, s), first, last) == VenueBook(history, last)
      {
        SnapshotConverges(history, s, first, last);
      }
    } else {
      DivergesOutside(s, first, last);
    }
  }
}
