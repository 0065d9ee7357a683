/**
 * The Binance depth handler seen from one pair: an initial snapshot request, then diffs in whatever
 * order, with losses, duplicates and reconnects, each gap followed by a snapshot request that may fail.
 */
module PairStream {
  import opened Common
  import opened OrderBook
  import opened Convergence

  /** A REST snapshot. The handler decodes lastUpdateId and never looks at it. */
  datatype Snapshot = Snapshot(lastUpdateId: nat, levels: Diff)

  datatype Event =
    | Initial(refresh: Option<Snapshot>)
    | Depth(id: int, diff: Diff, refresh: Option<Snapshot>)

  function Refresh(book: Book, outcome: Option<Snapshot>): Book {
    match outcome
    case None => book
    case Some(snapshot) => SnapshotBook(snapshot.levels)
  }

  /** What one event does to the reconstructor. A diff that reveals a gap is itself thrown away. */
  function Handle(st: BookState, ev: Event): BookState {
    match ev
    case Initial(outcome) => st.(book := Refresh(st.book, outcome))
    case Depth(id, diff, outcome) =>
      if Classify(st.lastSeq, id).Gap? then BookState(Refresh(st.book, outcome), 0)
      else DiffStep(st, id, diff)
  }

  function Run(evs: seq<Event>): BookState {
    if evs == [] then BookState(EMPTY_BOOK, 0)
    else Handle(Run(evs[..|evs| - 1]), evs[|evs| - 1])
  }

  /**
   * What an observer remembers since the last reset (start or MarkGap): the book at that moment, after
   * the refresh if it succeeded, and the diffs accepted since.
   */
  datatype Segment = Segment(base: Book, ids: seq<int>, diffs: seq<Diff>)

  function Observe(seg: Segment, st: BookState, ev: Event): Segment {
    match ev
    case Initial(outcome) => Segment(Refresh(st.book, outcome), [], [])
    case Depth(id, diff, outcome) =>
      match Classify(st.lastSeq, id)
      case Stale => seg
      case Gap => Segment(Refresh(st.book, outcome), [], [])
      case Accepted => seg.(ids := seg.ids + [id], diffs := seg.diffs + [diff])
  }

  function Since(evs: seq<Event>): Segment {
    if evs == [] then Segment(EMPTY_BOOK, [], [])
    else
      var before := evs[..|evs| - 1];
      Observe(Since(before), Run(before), evs[|evs| - 1])
  }

  /** The snapshot requests of the start-up phase come before the first message. */
  predicate Phased(evs: seq<Event>) {
    forall i, j :: 0 <= i < j < |evs| && evs[j].Initial? ==> evs[i].Initial?
  }

  predicate Numbered(evs: seq<Event>) {
    forall i :: 0 <= i < |evs| && evs[i].Depth? ==> evs[i].id >= 1
  }

  predicate Consecutive(ids: seq<int>) {
    forall i :: 0 <= i < |ids| ==> ids[i] == ids[0] + i
  }

  /** In start-up nothing has been accepted yet. */
  lemma {:induction false} StartupUnset(evs: seq<Event>)
    requires forall i :: 0 <= i < |evs| ==> evs[i].Initial?
    ensures Run(evs).lastSeq == 0
  {
    if evs != [] {
      StartupUnset(evs[..|evs| - 1]);
    }
  }

  /** The book is the replay of an unbroken stretch of diffs, ending at lastSeq, on the segment's base. */
  predicate ReplaysSegment(st: BookState, seg: Segment) {
    && st.book == Replay(seg.base, seg.diffs)
    && |seg.ids| == |seg.diffs|
    && Consecutive(seg.ids)
    && (st.lastSeq == 0 <==> seg.ids == [])
    && (seg.ids != [] ==> seg.ids[0] >= 1 && st.lastSeq == seg.ids[|seg.ids| - 1])
  }

  lemma AcceptReplays(st: BookState, seg: Segment, id: int, diff: Diff)
    requires ReplaysSegment(st, seg) && Classify(st.lastSeq, id).Accepted? && id >= 1
    ensures ReplaysSegment(DiffStep(st, id, diff), seg.(ids := seg.ids + [id], diffs := seg.diffs + [diff]))
  {
    assert (seg.diffs + [diff])[..|seg.diffs|] == seg.diffs;
  }

  lemma StepReplays(st: BookState, seg: Segment, ev: Event)
    requires ReplaysSegment(st, seg)
    requires (ev.Initial? ==> st.lastSeq == 0) && (ev.Depth? ==> ev.id >= 1)
    ensures ReplaysSegment(Handle(st, ev), Observe(seg, st, ev))
  {
    if ev.Depth? && Classify(st.lastSeq, ev.id).Accepted? {
      AcceptReplays(st, seg, ev.id, ev.diff);
    }
  }

  lemma PhasedFront(front: seq<Event>, last: Event)
    requires Phased(front + [last]) && Numbered(front + [last])
    ensures Phased(front) && Numbered(front)
    ensures (last.Initial? ==> Run(front).lastSeq == 0) && (last.Depth? ==> last.id >= 1)
  {
    var evs := front + [last];
    assert forall i :: 0 <= i < |front| ==> evs[i] == front[i];
    assert evs[|front|] == last;
    if last.Initial? {
      StartupUnset(front);
    }
  }

  /** Whole-run safety, for every stream of numbered messages and every outcome of every refresh. */
  lemma {:induction false} BookIsReplay(evs: seq<Event>)
    requires Phased(evs) && Numbered(evs)
    ensures ReplaysSegment(Run(evs), Since(evs))
  {
    if evs != [] {
      var front, last := evs[..|evs| - 1], evs[|evs| - 1];
      assert evs == front + [last];
      PhasedFront(front, last);
      BookIsReplay(front);
      StepReplays(Run(front), Since(front), last);
    }
  }

  /** Every message carries the venue's update of that number; any subset, order and repetition may arrive. */
  predicate Authentic(history: seq<Diff>, evs: seq<Event>) {
    forall i :: 0 <= i < |evs| && evs[i].Depth? ==>
      1 <= evs[i].id <= |history| && evs[i].diff == history[evs[i].id - 1]
  }

  predicate FromHistory(history: seq<Diff>, seg: Segment) {
    && |seg.ids| == |seg.diffs|
    && forall i :: 0 <= i < |seg.ids| ==> 1 <= seg.ids[i] <= |history| && seg.diffs[i] == history[seg.ids[i] - 1]
  }

  lemma {:induction false} AcceptedDiffsAreAuthentic(history: seq<Diff>, evs: seq<Event>)
    requires Authentic(history, evs)
    ensures FromHistory(history, Since(evs))
  {
    if evs != [] {
      AcceptedDiffsAreAuthentic(history, evs[..|evs| - 1]);
    }
  }

  /** The accepted diffs are first..lastSeq of the venue's history, and the book is their replay on the base. */
  predicate IsStretch(history: seq<Diff>, st: BookState, seg: Segment) {
    && seg.ids != [] && 1 <= seg.ids[0] <= st.lastSeq <= |history|
    && seg.diffs == history[seg.ids[0] - 1..st.lastSeq]
    && st.book == LocalBook(history, seg.base, seg.ids[0], st.lastSeq)
  }

  lemma StretchOf(history: seq<Diff>, st: BookState, seg: Segment)
    requires ReplaysSegment(st, seg) && FromHistory(history, seg) && st.lastSeq != 0
    ensures IsStretch(history, st, seg)
  {
    var ids := seg.ids;
    assert ids[|ids| - 1] == ids[0] + |ids| - 1;
    assert forall i :: 0 <= i < |ids| ==> seg.diffs[i] == history[ids[0] - 1..st.lastSeq][i];
    assert seg.diffs == history[ids[0] - 1..st.lastSeq];
  }

  /** On an authentic stream the accepted stretch is first..lastSeq of the venue's history. */
  lemma AcceptedStretch(history: seq<Diff>, evs: seq<Event>)
    requires Phased(evs) && Authentic(history, evs) && Run(evs).lastSeq != 0
    ensures IsStretch(history, Run(evs), Since(evs))
  {
    BookIsReplay(evs);
    AcceptedDiffsAreAuthentic(history, evs);
    StretchOf(history, Run(evs), Since(evs));
  }

  /**
   * Exactly when the book is right, in any run at all: every slot the accepted stretch leaves alone
   * must have been right in the base. A failed refresh or a late snapshot shows up only there.
   */
  lemma HandlerAgreesExactly(history: seq<Diff>, evs: seq<Event>)
    requires Phased(evs) && Authentic(history, evs) && Run(evs).lastSeq != 0
    ensures var st, seg := Run(evs), Since(evs);
      && seg.ids != [] && 1 <= seg.ids[0] <= st.lastSeq <= |history|
      && (st.book == VenueBook(history, st.lastSeq)
          <==> forall slot :: !TouchedBy(seg.diffs, slot) ==> At(seg.base, slot) == At(VenueBook(history, seg.ids[0] - 1), slot))
  {
    AcceptedStretch(history, evs);
    BookAgreesExactly(history, Since(evs).base, Since(evs).ids[0], Run(evs).lastSeq);
  }

  /** A complete snapshot of the venue's book after update lastUpdateId. */
  predicate Genuine(history: seq<Diff>, snapshot: Snapshot) {
    snapshot.lastUpdateId <= |history| && SnapshotBook(snapshot.levels) == VenueBook(history, snapshot.lastUpdateId)
  }

  predicate GenuineSnapshots(history: seq<Diff>, evs: seq<Event>) {
    forall i :: 0 <= i < |evs| && evs[i].refresh.Some? ==> Genuine(history, evs[i].refresh.value)
  }

  // ----- A wrong level stays wrong until a diff names it -----

  lemma RunLast(evs: seq<Event>, ev: Event)
    ensures Run(evs + [ev]) == Handle(Run(evs), ev)
  {
    assert (evs + [ev])[..|evs|] == evs;
  }

  /** The venue's updates after `from` up to `to`, each delivered once and in order. */
  function InOrder(history: seq<Diff>, from: nat, to: nat): seq<Event>
    requires from <= to <= |history|
  {
    seq(to - from, i requires 0 <= i < to - from => Depth(from + 1 + i, history[from + i], None))
  }

  /** No message of an unbroken stream is flagged, and each is taken as the next one. */
  lemma {:induction false} InOrderAccepted(history: seq<Diff>, evs: seq<Event>, to: nat)
    requires 0 < Run(evs).lastSeq <= to <= |history|
    ensures var from := Run(evs).lastSeq;
      Run(evs + InOrder(history, from, to)) == BookState(Replay(Run(evs).book, history[from..to]), to)
  {
    var from := Run(evs).lastSeq;
    if to == from {
      assert evs + InOrder(history, from, to) == evs;
    } else {
      InOrderAccepted(history, evs, to - 1);
      var less := evs + InOrder(history, from, to - 1);
      assert evs + InOrder(history, from, to) == less + [Depth(to, history[to - 1], None)];
      RunLast(less, Depth(to, history[to - 1], None));
      assert history[from..to][..to - 1 - from] == history[from..to - 1];
    }
  }

  /**
   * What an unbroken stream repairs: it is accepted to its end without a gap, and a level is right at
   * the end exactly if it was right before or one of the messages names it.
   */
  lemma RepairedExactly(history: seq<Diff>, evs: seq<Event>, to: nat, slot: Slot)
    requires 0 < Run(evs).lastSeq <= to <= |history|
    ensures var from := Run(evs).lastSeq;
      var after := Run(evs + InOrder(history, from, to));
      && after.lastSeq == to
      && (At(after.book, slot) == At(VenueBook(history, to), slot)
          <==> TouchedBy(history[from..to], slot) || At(Run(evs).book, slot) == At(VenueBook(history, from), slot))
  {
    var from := Run(evs).lastSeq;
    InOrderAccepted(history, evs, to);
    VenueSplit(history, from, to);
    ReplayAgree(Run(evs).book, VenueBook(history, from), history[from..to], slot);
  }

  // ----- A gap that costs a level -----

  /** Start on an empty snapshot, accept 1, lose 2, take the gap at 3 with the given refresh outcome, accept 4. */
  function GapRun(history: seq<Diff>, outcome: Option<Snapshot>): seq<Event>
    requires |history| >= 4
  {
    [Initial(Some(Snapshot(0, Diff([], [])))),
     Depth(1, history[0], None), Depth(3, history[2], outcome), Depth(4, history[3], None)]
  }

  lemma GapRunFolds(history: seq<Diff>, outcome: Option<Snapshot>)
    requires |history| >= 4
    ensures var evs := GapRun(history, outcome);
      Run(evs) == BookState(ApplyDiffTo(Refresh(ApplyDiffTo(EMPTY_BOOK, history[0]), outcome), history[3]), 4)
  {
    var start, one := Initial(Some(Snapshot(0, Diff([], [])))), Depth(1, history[0], None);
    var three, four := Depth(3, history[2], outcome), Depth(4, history[3], None);
    RunLast([], start);
    RunLast([start], one);
    RunLast([start, one], three);
    RunLast([start, one, three], four);
    assert [] + [start] == [start] && [start] + [one] == [start, one] && [start, one] + [three] == [start, one, three];
    assert [start, one, three] + [four] == GapRun(history, outcome);
  }

  /**
   * An authentic gap run after which the book is wrong, and stays so under every unbroken continuation,
   * while every further message is accepted as the next one.
   */
  ghost predicate GapRunDiverges(history: seq<Diff>, outcome: Option<Snapshot>)
    requires |history| >= 4
  {
    var evs := GapRun(history, outcome);
    && Phased(evs) && Authentic(history, evs) && GenuineSnapshots(history, evs)
    && forall to | 4 <= to <= |history| ::
      var after := Run(evs + InOrder(history, 4, to));
      after.lastSeq == to && after.book != VenueBook(history, to)
  }

  lemma GapRunIsGenuine(history: seq<Diff>, outcome: Option<Snapshot>)
    requires |history| >= 4 && (outcome.Some? ==> Genuine(history, outcome.value))
    ensures var evs := GapRun(history, outcome);
      Phased(evs) && Authentic(history, evs) && GenuineSnapshots(history, evs)
  {
    assert SnapshotBook(Diff([], [])) == EMPTY_BOOK == VenueBook(history, 0);
  }

  lemma MissedUpdateDiverges(length: nat, change: nat, outcome: Option<Snapshot>)
    requires length >= 4 && 2 <= change <= 3
    requires outcome.Some? ==> Genuine(SingleChange(length, change), outcome.value)
    requires At(Refresh(EMPTY_BOOK, outcome), Slot(true, "1")) == None
    ensures GapRunDiverges(SingleChange(length, change), outcome)
  {
    var history, slot := SingleChange(length, change), Slot(true, "1");
    var evs := GapRun(history, outcome);
    GapRunFolds(history, outcome);
    GapRunIsGenuine(history, outcome);
    assert history[0] == history[3] == Diff([], []);
    assert Run(evs) == BookState(Refresh(EMPTY_BOOK, outcome), 4);
    SingleChangeBook(length, change, 4);
    forall to | 4 <= to <= length
      ensures Run(evs + InOrder(history, 4, to)).lastSeq == to
      ensures Run(evs + InOrder(history, 4, to)).book != VenueBook(history, to)
    {
      RepairedExactly(history, evs, to, slot);
      assert forall i :: 4 <= i < to ==> history[i] == Diff([], []);
      assert !TouchedBy(history[4..to], slot);
    }
  }

  lemma NothingBefore(length: nat, change: nat, n: nat)
    requires n < change <= length
    ensures VenueBook(SingleChange(length, change), n) == EMPTY_BOOK
  {
    var history := SingleChange(length, change);
    if n > 0 {
      NothingBefore(length, change, n - 1);
      assert history[..n][..n - 1] == history[..n - 1] && history[..n][n - 1] == Diff([], []);
    }
  }

  /**
   * A gap does not always lead back to the venue's book: not when the refresh fails, and not when it
   * succeeds with a snapshot older than the diff that was thrown away. However long the stream then
   * goes on unbroken, no message is flagged and the level stays wrong.
   */
  lemma GapRecoveryCanLoseALevel(length: nat)
    requires length >= 4
    ensures GapRunDiverges(SingleChange(length, 2), None)
    ensures GapRunDiverges(SingleChange(length, 3), Some(Snapshot(2, Diff([], []))))
  {
    MissedUpdateDiverges(length, 2, None);
    NothingBefore(length, 3, 2);
    MissedUpdateDiverges(length, 3, Some(Snapshot(2, Diff([], []))));
  }

  /** Messages without an update id decode to id 0: each is applied, and no loss is ever noticed. */
  lemma {:induction false} UnnumberedDiffsNeverGap(evs: seq<Event>)
    requires forall i :: 0 <= i < |evs| && evs[i].Depth? ==> evs[i].id == 0
    ensures Run(evs).lastSeq == 0
    ensures forall id :: Classify(Run(evs).lastSeq, id) == Accepted
  {
    if evs != [] {
      UnnumberedDiffsNeverGap(evs[..|evs| - 1]);
    }
  }
}
