/**
 * Exactly when the depth handler's book is the venue's, told from the update ids and the refresh
 * outcomes alone: no content of any book is looked at.
 */
module Recovery {
  import opened Common
  import opened OrderBook
  import opened Convergence
  import opened PairStream
  import opened TopLevels

  /** What can be seen of an event without its contents; a successful refresh shows the snapshot's id. */
  datatype Cue =
    | InitialCue(refresh: Option<nat>)
    | DepthCue(id: int, refresh: Option<nat>)

  function Taken(outcome: Option<Snapshot>): Option<nat> {
    if outcome.Some? then Some(outcome.value.lastUpdateId) else None
  }

  function CueOf(ev: Event): Cue {
    match ev
    case Initial(outcome) => InitialCue(Taken(outcome))
    case Depth(id, _, outcome) => DepthCue(id, Taken(outcome))
  }

  function ScriptOf(evs: seq<Event>): seq<Cue> {
    seq(|evs|, i requires 0 <= i < |evs| => CueOf(evs[i]))
  }

  /** The book is right up to update `solid`, and nothing later than update `reach` has left a trace in it. */
  datatype Marks = Marks(solid: int, reach: int)

  /** first: the first id accepted since the last reset. base: the marks right after that reset. */
  datatype Progress = Progress(lastSeq: int, first: int, base: Marks, now: Marks)

  function Refreshed(m: Marks, outcome: Option<nat>): Marks {
    if outcome.Some? then Marks(outcome.value, outcome.value) else m
  }

  function Accept(m: Marks, id: int): Marks {
    Marks(if id <= m.solid + 1 then id else m.solid, Max(m.reach, id))
  }

  function Advance(p: Progress, cue: Cue): Progress {
    match cue
    case InitialCue(outcome) =>
      var m := Refreshed(p.now, outcome);
      p.(base := m, now := m)
    case DepthCue(id, outcome) =>
      match Classify(p.lastSeq, id)
      case Stale => p
      case Gap =>
        var m := Refreshed(p.now, outcome);
        Progress(0, 0, m, m)
      case Accepted => Progress(id, if p.lastSeq == 0 then id else p.first, p.base, Accept(p.now, id))
  }

  function Track(script: seq<Cue>): Progress {
    if script == [] then Progress(0, 0, Marks(0, 0), Marks(0, 0))
    else Advance(Track(script[..|script| - 1]), script[|script| - 1])
  }

  lemma TrackLast(script: seq<Cue>, cue: Cue)
    ensures Track(script + [cue]) == Advance(Track(script), cue)
  {
    assert (script + [cue])[..|script|] == script;
  }

  // ----- What the marks say about the book -----

  /** None of the updates from + 1 to `to` names the slot. */
  predicate Quiet(history: seq<Diff>, from: int, to: int, slot: Slot)
    requires 0 <= from && to <= |history|
  {
    forall i :: from <= i < to ==> !Touches(history[i], slot)
  }

  lemma QuietVenue(history: seq<Diff>, a: nat, b: nat, slot: Slot)
    requires a <= b <= |history| && Quiet(history, a, b, slot)
    ensures At(VenueBook(history, a), slot) == At(VenueBook(history, b), slot)
  {
    VenueSplit(history, a, b);
    ReplayUntouched(VenueBook(history, a), history[a..b], slot);
  }

  lemma VenueNext(history: seq<Diff>, id: nat)
    requires 1 <= id <= |history|
    ensures VenueBook(history, id) == ApplyDiffTo(VenueBook(history, id - 1), history[id - 1])
  {
    assert history[..id][..id - 1] == history[..id - 1];
  }

  /** After update `id` has been applied, a slot that it names is right as of that update. */
  lemma NamedIsRight(history: seq<Diff>, book: Book, id: nat, slot: Slot)
    requires 1 <= id <= |history| && Touches(history[id - 1], slot)
    ensures At(ApplyDiffTo(book, history[id - 1]), slot) == At(VenueBook(history, id), slot)
  {
    VenueNext(history, id);
    DiffEffect(book, history[id - 1], slot);
    DiffEffect(VenueBook(history, id - 1), history[id - 1], slot);
  }

  ghost predicate SlotCovered(history: seq<Diff>, book: Book, m: Marks, slot: Slot)
    requires 0 <= m.solid <= m.reach <= |history|
  {
    Quiet(history, m.solid, m.reach, slot) ==> At(book, slot) == At(VenueBook(history, m.solid), slot)
  }

  /** A slot that no update between the marks names is as the venue had it at the lower mark. */
  ghost predicate Covered(history: seq<Diff>, book: Book, m: Marks) {
    && 0 <= m.solid <= m.reach <= |history|
    && forall slot :: SlotCovered(history, book, m, slot)
  }

  lemma AcceptSlot(history: seq<Diff>, book: Book, m: Marks, id: int, slot: Slot)
    requires 0 <= m.solid <= m.reach <= |history| && SlotCovered(history, book, m, slot) && 1 <= id <= |history|
    ensures SlotCovered(history, ApplyDiffTo(book, history[id - 1]), Accept(m, id), slot)
  {
    var after, m' := ApplyDiffTo(book, history[id - 1]), Accept(m, id);
    DiffEffect(book, history[id - 1], slot);
    if Quiet(history, m'.solid, m'.reach, slot) {
      if Touches(history[id - 1], slot) {
        assert id <= m.solid + 1;
        NamedIsRight(history, book, id, slot);
      } else if id <= m.solid {
        QuietVenue(history, id, m.solid, slot);
      } else if id == m.solid + 1 {
        QuietVenue(history, m.solid, id, slot);
      }
    }
  }

  lemma AcceptCovered(history: seq<Diff>, book: Book, m: Marks, id: int)
    requires Covered(history, book, m) && 1 <= id <= |history|
    ensures Covered(history, ApplyDiffTo(book, history[id - 1]), Accept(m, id))
  {
    var after, m' := ApplyDiffTo(book, history[id - 1]), Accept(m, id);
    forall slot ensures SlotCovered(history, after, m', slot) {
      AcceptSlot(history, book, m, id, slot);
    }
  }

  /** Marks that meet tell the whole book. */
  lemma CoveredIsRight(history: seq<Diff>, book: Book, n: nat)
    requires Covered(history, book, Marks(n, n))
    ensures n <= |history| && book == VenueBook(history, n)
  {
    forall slot ensures At(book, slot) == At(VenueBook(history, n), slot) {
      assert SlotCovered(history, book, Marks(n, n), slot);
    }
    SameSlotsSameBook(book, VenueBook(history, n));
  }

  predicate AuthenticEvent(history: seq<Diff>, ev: Event) {
    && (ev.Depth? ==> 1 <= ev.id <= |history| && ev.diff == history[ev.id - 1])
    && (ev.refresh.Some? ==> Genuine(history, ev.refresh.value))
  }

  /** The handler's state and the progress told from the ids go together. */
  ghost predicate Tracks(history: seq<Diff>, st: BookState, p: Progress) {
    st.lastSeq == p.lastSeq && Covered(history, st.book, p.now)
  }

  lemma StepTracks(history: seq<Diff>, st: BookState, p: Progress, ev: Event)
    requires Tracks(history, st, p) && AuthenticEvent(history, ev)
    ensures Tracks(history, Handle(st, ev), Advance(p, CueOf(ev)))
  {
    if ev.Depth? && Classify(st.lastSeq, ev.id).Accepted? {
      AcceptCovered(history, st.book, p.now, ev.id);
    }
  }

  lemma FrontOf(history: seq<Diff>, front: seq<Event>, last: Event)
    requires Authentic(history, front + [last]) && GenuineSnapshots(history, front + [last])
    ensures Authentic(history, front) && GenuineSnapshots(history, front) && AuthenticEvent(history, last)
    ensures ScriptOf(front + [last]) == ScriptOf(front) + [CueOf(last)]
  {
    var evs := front + [last];
    assert evs[|front|] == last;
    assert forall i :: 0 <= i < |front| ==> evs[i] == front[i];
  }

  lemma {:induction false} RunTracks(history: seq<Diff>, evs: seq<Event>)
    requires Authentic(history, evs) && GenuineSnapshots(history, evs)
    ensures Tracks(history, Run(evs), Track(ScriptOf(evs)))
  {
    if evs != [] {
      var front, last := evs[..|evs| - 1], evs[|evs| - 1];
      assert evs == front + [last];
      FrontOf(history, front, last);
      RunTracks(history, front);
      StepTracks(history, Run(front), Track(ScriptOf(front)), last);
      RunLast(front, last);
      TrackLast(ScriptOf(front), CueOf(last));
    }
  }

  /** Authentic messages, genuine snapshots, and marks that meet at update n. */
  predicate InStepAt(history: seq<Diff>, evs: seq<Event>, n: nat) {
    Authentic(history, evs) && GenuineSnapshots(history, evs) && Track(ScriptOf(evs)).now == Marks(n, n)
  }

  /** In every run, failed and late refreshes included: once the marks meet, the book is the venue's. */
  lemma HandlerConverges(history: seq<Diff>, evs: seq<Event>, n: nat)
    requires InStepAt(history, evs, n)
    ensures n <= |history| && Run(evs).book == VenueBook(history, n)
  {
    RunTracks(history, evs);
    CoveredIsRight(history, Run(evs).book, n);
  }

  // ----- Playing a script against a chosen venue -----

  predicate ScriptNumbered(script: seq<Cue>) {
    forall i :: 0 <= i < |script| && script[i].DepthCue? ==> script[i].id >= 1
  }

  /** The events show this script, and carry the history's updates and complete snapshots of its books. */
  predicate Plays(history: seq<Diff>, evs: seq<Event>, script: seq<Cue>) {
    Authentic(history, evs) && GenuineSnapshots(history, evs) && ScriptOf(evs) == script
  }

  predicate CueFits(cue: Cue, length: nat) {
    && (cue.DepthCue? ==> 1 <= cue.id <= length)
    && (cue.refresh.Some? ==> cue.refresh.value <= length)
  }

  predicate Fits(script: seq<Cue>, length: nat) {
    forall i :: 0 <= i < |script| ==> CueFits(script[i], length)
  }

  /** A history of this length has every update and snapshot the script names. */
  function LengthFor(script: seq<Cue>): (r: nat)
    requires ScriptNumbered(script)
    ensures Fits(script, r)
  {
    if script == [] then 0
    else
      var front, last := script[..|script| - 1], script[|script| - 1];
      assert forall i :: 0 <= i < |front| ==> front[i] == script[i];
      var r: nat := Max(LengthFor(front), Max(if last.DepthCue? then last.id else 0, if last.refresh.Some? then last.refresh.value else 0));
      assert forall i :: 0 <= i < |front| ==> CueFits(front[i], LengthFor(front));
      r
  }

  ghost function LevelsOf(book: Book): Diff {
    Diff(Ranked(book.bids, true), Ranked(book.asks, false))
  }

  lemma ListedSide(side: Side, levels: seq<Level>)
    requires HoldsExactly(side, levels)
    ensures SnapshotSide(levels) == side
  {
    forall price: string ensures Lookup(SnapshotSide(levels), price) == Lookup(side, price) {
      SnapshotLastWriterWins(levels, price);
      if price in side {
        assert Level(price, side[price]) in levels;
      }
      var i := LastWrite(levels, price);
      if i.Some? {
        assert levels[i.value] in levels;
      }
    }
    SameLookups(SnapshotSide(levels), side);
  }

  ghost function SnapshotAt(history: seq<Diff>, s: nat): (r: Snapshot)
    requires s <= |history|
    ensures Genuine(history, r) && r.lastUpdateId == s
  {
    var book := VenueBook(history, s);
    ListedSide(book.bids, Ranked(book.bids, true));
    ListedSide(book.asks, Ranked(book.asks, false));
    Snapshot(s, LevelsOf(book))
  }

  ghost function Taking(history: seq<Diff>, outcome: Option<nat>): (r: Option<Snapshot>)
    requires outcome.Some? ==> outcome.value <= |history|
    ensures Taken(r) == outcome && (r.Some? ==> Genuine(history, r.value))
  {
    if outcome.Some? then Some(SnapshotAt(history, outcome.value)) else None
  }

  ghost function Played(history: seq<Diff>, cue: Cue): (r: Event)
    requires CueFits(cue, |history|)
    ensures AuthenticEvent(history, r) && CueOf(r) == cue
  {
    match cue
    case InitialCue(outcome) => Initial(Taking(history, outcome))
    case DepthCue(id, outcome) => Depth(id, history[id - 1], Taking(history, outcome))
  }

  lemma ScriptCanBePlayed(history: seq<Diff>, script: seq<Cue>) returns (evs: seq<Event>)
    requires Fits(script, |history|)
    ensures Plays(history, evs, script)
  {
    evs := seq(|script|, i requires 0 <= i < |script| => Played(history, script[i]));
    assert forall i :: 0 <= i < |script| ==> AuthenticEvent(history, evs[i]) && CueOf(evs[i]) == script[i];
    assert ScriptOf(evs) == script;
  }

  // ----- Venues on which apart marks show -----

  /** On a history with the one change c: the book shows the change exactly if an update or snapshot brought it. */
  ghost predicate ShowsChange(book: Book, m: Marks, c: nat) {
    && (m.reach == c ==> At(book, Slot(true, "1")) == Some("1"))
    && (m.reach < c ==> At(book, Slot(true, "1")) == None)
  }

  lemma ChangeEffect(length: nat, c: nat, book: Book, id: nat)
    requires 1 <= c <= length && 1 <= id <= length
    ensures var slot, history := Slot(true, "1"), SingleChange(length, c);
      At(ApplyDiffTo(book, history[id - 1]), slot) == if id == c then Some("1") else At(book, slot)
  {
    var slot, history := Slot(true, "1"), SingleChange(length, c);
    DiffEffect(book, history[id - 1], slot);
    if id == c {
      assert SideOf(history[id - 1], slot)[0].price == "1";
    }
  }

  lemma StepShowsChange(length: nat, c: nat, st: BookState, p: Progress, ev: Event)
    requires 1 <= c <= length && AuthenticEvent(SingleChange(length, c), ev)
    requires st.lastSeq == p.lastSeq && ShowsChange(st.book, p.now, c)
    ensures ShowsChange(Handle(st, ev).book, Advance(p, CueOf(ev)).now, c)
  {
    if ev.Depth? && Classify(st.lastSeq, ev.id).Accepted? {
      ChangeEffect(length, c, st.book, ev.id);
    } else if ev.refresh.Some? {
      SingleChangeBook(length, c, ev.refresh.value.lastUpdateId);
    }
  }

  lemma {:induction false} RunShowsChange(length: nat, c: nat, evs: seq<Event>)
    requires 1 <= c <= length
    requires Authentic(SingleChange(length, c), evs) && GenuineSnapshots(SingleChange(length, c), evs)
    ensures ShowsChange(Run(evs).book, Track(ScriptOf(evs)).now, c)
  {
    if evs != [] {
      var history, front, last := SingleChange(length, c), evs[..|evs| - 1], evs[|evs| - 1];
      assert evs == front + [last];
      FrontOf(history, front, last);
      RunShowsChange(length, c, front);
      RunTracks(history, front);
      StepShowsChange(length, c, Run(front), Track(ScriptOf(front)), last);
      RunLast(front, last);
      TrackLast(ScriptOf(front), CueOf(last));
    }
  }

  /** Update p sets a bid and update p + 1 changes its size; no other update does anything. */
  function TwoChanges(length: nat, p: nat): seq<Diff> {
    seq(length, i => if i + 1 == p then Diff([Level("1", "1")], [])
                     else if i == p then Diff([Level("1", "2")], []) else Diff([], []))
  }

  lemma TwoChangesNamed(length: nat, p: nat, id: nat)
    requires 1 <= id <= length
    ensures Touches(TwoChanges(length, p)[id - 1], Slot(true, "1")) <==> id == p || id == p + 1
  {
    var diff := TwoChanges(length, p)[id - 1];
    if id == p || id == p + 1 {
      assert diff.bids[0].price == "1";
    }
  }

  /** As long as the book is solid up to p only, it does not show update p + 1. */
  lemma StepStuck(length: nat, st: BookState, prog: Progress, ev: Event, p: nat)
    requires p < length && AuthenticEvent(TwoChanges(length, p), ev) && st.lastSeq == prog.lastSeq
    requires var slot := Slot(true, "1"); prog.now.solid == p ==> At(st.book, slot) == At(VenueBook(TwoChanges(length, p), p), slot)
    ensures var slot := Slot(true, "1");
      Advance(prog, CueOf(ev)).now.solid == p ==> At(Handle(st, ev).book, slot) == At(VenueBook(TwoChanges(length, p), p), slot)
  {
    var history, slot := TwoChanges(length, p), Slot(true, "1");
    if ev.Depth? && Classify(st.lastSeq, ev.id).Accepted? {
      TwoChangesNamed(length, p, ev.id);
      DiffEffect(st.book, history[ev.id - 1], slot);
      if ev.id == p {
        NamedIsRight(history, st.book, p, slot);
      }
    }
  }

  lemma {:induction false} RunStuck(length: nat, p: nat, evs: seq<Event>)
    requires p < length && Authentic(TwoChanges(length, p), evs) && GenuineSnapshots(TwoChanges(length, p), evs)
    ensures var slot := Slot(true, "1");
      Track(ScriptOf(evs)).now.solid == p ==> At(Run(evs).book, slot) == At(VenueBook(TwoChanges(length, p), p), slot)
  {
    var history := TwoChanges(length, p);
    if evs == [] {
      assert history[..0] == [];
    } else {
      var front, last := evs[..|evs| - 1], evs[|evs| - 1];
      assert evs == front + [last];
      FrontOf(history, front, last);
      RunStuck(length, p, front);
      RunTracks(history, front);
      StepStuck(length, Run(front), Track(ScriptOf(front)), last, p);
      RunLast(front, last);
      TrackLast(ScriptOf(front), CueOf(last));
    }
  }

  lemma TwoChangesDiffer(length: nat, p: nat, n: nat)
    requires p < n <= length
    ensures At(VenueBook(TwoChanges(length, p), p), Slot(true, "1")) != At(VenueBook(TwoChanges(length, p), n), Slot(true, "1"))
  {
    var history, slot := TwoChanges(length, p), Slot(true, "1");
    VenueNext(history, p + 1);
    TwoChangesNamed(length, p, p + 1);
    DiffEffect(VenueBook(history, p), history[p], slot);
    forall i | p + 1 <= i < n ensures !Touches(history[i], slot) {
      TwoChangesNamed(length, p, i + 1);
    }
    QuietVenue(history, p + 1, n, slot);
    if p == 0 {
      assert history[..0] == [];
    } else {
      VenueNext(history, p);
      TwoChangesNamed(length, p, p);
      DiffEffect(VenueBook(history, p - 1), history[p - 1], slot);
    }
  }

  // ----- The exact condition -----

  /** Every run that shows this script ends with the venue's book after update n, whatever the venue's updates are. */
  ghost predicate RightForEveryVenue(script: seq<Cue>, n: nat) {
    forall history: seq<Diff>, evs: seq<Event> | n <= |history| && Plays(history, evs, script) ::
      Run(evs).book == VenueBook(history, n)
  }

  lemma WrongReach(script: seq<Cue>, n: nat)
    requires ScriptNumbered(script) && Track(script).now.reach != n && Track(script).now.reach >= 0
    ensures !RightForEveryVenue(script, n)
  {
    var reach: nat := Track(script).now.reach;
    var c: nat := Max(n, reach);
    var length: nat := Max(c, LengthFor(script));
    var history := SingleChange(length, c);
    var evs := ScriptCanBePlayed(history, script);
    RunShowsChange(length, c, evs);
    SingleChangeBook(length, c, n);
  }

  lemma WrongSolid(script: seq<Cue>, n: nat)
    requires ScriptNumbered(script) && 0 <= Track(script).now.solid < n
    ensures !RightForEveryVenue(script, n)
  {
    var p: nat := Track(script).now.solid;
    var length: nat := Max(n, LengthFor(script));
    var history := TwoChanges(length, p);
    var evs := ScriptCanBePlayed(history, script);
    RunStuck(length, p, evs);
    TwoChangesDiffer(length, p, n);
  }

  lemma MarksInOrder(script: seq<Cue>)
    requires ScriptNumbered(script)
    ensures 0 <= Track(script).now.solid <= Track(script).now.reach
  {
    var history := SingleChange(LengthFor(script), 0);
    var evs := ScriptCanBePlayed(history, script);
    RunTracks(history, evs);
  }

  /** For every stream and every outcome of every refresh: the book is right for all venues exactly if the marks meet. */
  lemma InStepExactly(script: seq<Cue>, n: nat)
    requires ScriptNumbered(script)
    ensures RightForEveryVenue(script, n) <==> Track(script).now == Marks(n, n)
  {
    MarksInOrder(script);
    if Track(script).now == Marks(n, n) {
      forall history: seq<Diff>, evs: seq<Event> | n <= |history| && Plays(history, evs, script)
        ensures Run(evs).book == VenueBook(history, n)
      {
        HandlerConverges(history, evs, n);
      }
    } else if Track(script).now.reach != n {
      WrongReach(script, n);
    } else {
      WrongSolid(script, n);
    }
  }

  // ----- From one reset to the next -----

  predicate ScriptPhased(script: seq<Cue>) {
    forall i, j :: 0 <= i < j < |script| && script[j].InitialCue? ==> script[i].InitialCue?
  }

  /** The diffs since the reset rewrite first..lastSeq; what they build on is told by the marks at the reset. */
  predicate Segmented(p: Progress) {
    if p.lastSeq == 0 then p.now == p.base
    else
      && 1 <= p.first <= p.lastSeq
      && p.now == Marks(if p.first <= p.base.solid + 1 then p.lastSeq else p.base.solid, Max(p.base.reach, p.lastSeq))
  }

  lemma ScriptFront(front: seq<Cue>, last: Cue)
    requires ScriptNumbered(front + [last]) && ScriptPhased(front + [last])
    ensures ScriptNumbered(front) && ScriptPhased(front) && (last.DepthCue? ==> last.id >= 1)
    ensures last.InitialCue? ==> forall i :: 0 <= i < |front| ==> front[i].InitialCue?
  {
    var script := front + [last];
    assert script[|front|] == last;
    assert forall i :: 0 <= i < |front| ==> script[i] == front[i];
  }

  lemma {:induction false} InitialTrack(script: seq<Cue>)
    requires forall i :: 0 <= i < |script| ==> script[i].InitialCue?
    ensures Track(script).lastSeq == 0
  {
    if script != [] {
      InitialTrack(script[..|script| - 1]);
    }
  }

  lemma {:induction false} TrackSegmented(script: seq<Cue>)
    requires ScriptNumbered(script) && ScriptPhased(script)
    ensures Segmented(Track(script))
  {
    if script != [] {
      var front, last := script[..|script| - 1], script[|script| - 1];
      assert script == front + [last];
      ScriptFront(front, last);
      TrackSegmented(front);
      if last.InitialCue? {
        InitialTrack(front);
      }
    }
  }

  /** A reset: a snapshot request at the start, or a message that reveals a gap. */
  predicate Resets(before: seq<Cue>, cue: Cue) {
    cue.InitialCue? || Classify(Track(before).lastSeq, cue.id).Gap?
  }

  predicate NoReset(before: seq<Cue>, after: seq<Cue>) {
    after == [] ||
    (NoReset(before, after[..|after| - 1]) && !Resets(before + after[..|after| - 1], after[|after| - 1]))
  }

  lemma StepKeepsBase(before: seq<Cue>, cue: Cue)
    requires !Resets(before, cue)
    ensures Track(before + [cue]).base == Track(before).base
  {
    TrackLast(before, cue);
  }

  lemma {:induction false} BaseStays(before: seq<Cue>, after: seq<Cue>)
    requires NoReset(before, after)
    ensures Track(before + after).base == Track(before).base
  {
    if after == [] {
      assert before + after == before;
    } else {
      var front, last := after[..|after| - 1], after[|after| - 1];
      BaseStays(before, front);
      StepKeepsBase(before + front, last);
      assert before + after == (before + front) + [last];
    }
  }

  /**
   * Recovery after a reset, on numbers a caller can see. After a successful refresh with snapshot s the
   * book is right for every venue exactly if first <= s + 1 and s <= lastSeq. After a failed refresh of
   * a book that was right at update b, the same holds with b for s.
   */
  lemma RecoveryExactly(before: seq<Cue>, reset: Cue, after: seq<Cue>)
    requires var script := before + [reset] + after;
      ScriptNumbered(script) && ScriptPhased(script) && Track(script).lastSeq != 0
    requires Resets(before, reset) && NoReset(before + [reset], after)
    ensures var script := before + [reset] + after;
      var first, last := Track(script).first, Track(script).lastSeq;
      var marks := Refreshed(Track(before).now, reset.refresh);
      && 1 <= first <= last
      && (RightForEveryVenue(script, last) <==> first <= marks.solid + 1 && marks.reach <= last)
      && (forall s :: reset.refresh == Some(s) ==> (RightForEveryVenue(script, last) <==> first <= s + 1 && s <= last))
      && (forall b: nat :: reset.refresh == None && RightForEveryVenue(before, b) ==>
            (RightForEveryVenue(script, last) <==> first <= b + 1 && b <= last))
  {
    var script := before + [reset] + after;
    TrackLast(before, reset);
    BaseStays(before + [reset], after);
    TrackSegmented(script);
    InStepExactly(script, Track(script).lastSeq);
    assert ScriptNumbered(before) by {
      assert forall i :: 0 <= i < |before| ==> script[i] == before[i];
    }
    MarksInOrder(before);
    forall b: nat | reset.refresh == None && RightForEveryVenue(before, b)
      ensures Track(before).now == Marks(b, b)
    {
      InStepExactly(before, b);
    }
  }
}
