/**
 * AsyncSink: many emitters, one delivery loop and Close around a bounded channel that drops on
 * overflow, in every interleaving of their atomic steps.
 */
module AuditSink {
  import opened Common

  datatype AuditEvent = AuditEvent(emitter: nat, payload: string)

  /**
   * counting: emitters that failed to send and have not yet taken the lock to count the drop.
   * closing: Close has set the flag and not yet closed the channel. inHand: received, not delivered.
   */
  datatype Sink = Sink(
    capacity: nat,
    queue: seq<AuditEvent>,
    inHand: Option<AuditEvent>,
    counting: set<nat>,
    dropped: nat,
    closed: bool,
    closing: bool,
    channelClosed: bool,
    exited: bool,
    panicked: bool)

  /** Emit is TrySend and, if that fails, CountDrop; Close is BeginClose and then CloseChannel. */
  datatype Action =
    | TrySend(event: AuditEvent, loopParked: bool)
    | CountDrop(emitter: nat)
    | Receive
    | Deliver
    | BeginClose
    | CloseChannel

  predicate Enabled(s: Sink, a: Action) {
    !s.panicked &&
    match a
    case TrySend(event, loopParked) =>
      // A parked receiver is blocked on an open, empty channel with nothing in hand.
      && event.emitter !in s.counting
      && (loopParked ==> s.inHand.None? && s.queue == [] && !s.exited && !s.channelClosed)
    case CountDrop(emitter) => emitter in s.counting
    case Receive => s.inHand.None? && !s.exited && (s.queue != [] || s.channelClosed)
    case Deliver => s.inHand.Some?
    case BeginClose => true
    case CloseChannel => s.closing
  }

  function Step(s: Sink, a: Action): Sink
    requires Enabled(s, a)
  {
    match a
    case TrySend(event, loopParked) =>
      if s.channelClosed then s.(panicked := true)
      else if loopParked then s.(inHand := Some(event))
      else if |s.queue| < s.capacity then s.(queue := s.queue + [event])
      else s.(counting := s.counting + {event.emitter})
    case CountDrop(emitter) => s.(counting := s.counting - {emitter}, dropped := s.dropped + 1)
    case Receive =>
      if s.queue != [] then s.(inHand := Some(s.queue[0]), queue := s.queue[1..])
      else s.(exited := true)
    case Deliver => s.(inHand := None)
    case BeginClose => if s.closed then s else s.(closed := true, closing := true)
    case CloseChannel =>
      if s.channelClosed then s.(panicked := true)
      else s.(closing := false, channelClosed := true)
  }

  // ----- The mutable object, one method per atomic step -----

  class AsyncSink {
    const capacity: nat
    var queue: seq<AuditEvent>
    var inHand: Option<AuditEvent>
    var counting: set<nat>
    var dropped: nat
    var closed: bool
    var closing: bool
    var channelClosed: bool
    var exited: bool
    var panicked: bool

    function State(): Sink
      reads this
    {
      Sink(capacity, queue, inHand, counting, dropped, closed, closing, channelClosed, exited, panicked)
    }

    constructor (queueSize: nat)
      ensures State() == Start(queueSize)
    {
      capacity := queueSize;
      queue, inHand, counting, dropped := [], None, {}, 0;
      closed, closing, channelClosed, exited, panicked := false, false, false, false, false;
    }

    method TrySend(event: AuditEvent, loopParked: bool) returns (sent: bool)
      requires Enabled(State(), Action.TrySend(event, loopParked))
      modifies this
      ensures State() == Step(old(State()), Action.TrySend(event, loopParked))
      ensures sent <==> !old(channelClosed) && (loopParked || old(|queue|) < capacity)
    {
      sent := false;
      if channelClosed {
        panicked := true;
      } else if loopParked {
        inHand, sent := Some(event), true;
      } else if |queue| < capacity {
        queue, sent := queue + [event], true;
      } else {
        counting := counting + {event.emitter};
      }
    }

    method CountDrop(emitter: nat)
      requires Enabled(State(), Action.CountDrop(emitter))
      modifies this
      ensures State() == Step(old(State()), Action.CountDrop(emitter))
    {
      dropped := dropped + 1;
      counting := counting - {emitter};
    }

    /** The head of the delivery loop: the next event, or the end of the range over a closed channel. */
    method Receive()
      requires Enabled(State(), Action.Receive)
      modifies this
      ensures State() == Step(old(State()), Action.Receive)
    {
      if queue != [] {
        inHand, queue := Some(queue[0]), queue[1..];
      } else {
        exited := true;
      }
    }

    method Deliver() returns (event: AuditEvent)
      requires Enabled(State(), Action.Deliver)
      modifies this
      ensures event == old(inHand).value
      ensures State() == Step(old(State()), Action.Deliver)
    {
      event := inHand.value;
      inHand := None;
    }

    method BeginClose()
      requires Enabled(State(), Action.BeginClose)
      modifies this
      ensures State() == Step(old(State()), Action.BeginClose)
    {
      if closed {
        return;
      }
      closed, closing := true, true;
    }

    method CloseChannel()
      requires Enabled(State(), Action.CloseChannel)
      modifies this
      ensures State() == Step(old(State()), Action.CloseChannel)
    {
      if channelClosed {
        panicked := true;
      } else {
        closing, channelClosed := false, true;
      }
    }

    method Dropped() returns (n: nat)
      ensures n == dropped
    {
      n := dropped;
    }
  }

  // ----- Runs -----

  function Start(capacity: nat): Sink {
    Sink(capacity, [], None, {}, 0, false, false, false, false, false)
  }

  /** One call of Emit that reached the channel: what was sent, whether it went in, how many waited. */
  datatype Offer = Offer(event: AuditEvent, kept: bool, waiting: nat)

  /** The sink with the history of what was offered to it and what its delegate received. */
  datatype World = World(sink: Sink, offers: seq<Offer>, delivered: seq<AuditEvent>)

  /** A step the scheduler cannot take changes nothing. */
  function StepWorld(w: World, a: Action): World {
    if !Enabled(w.sink, a) then w
    else
      var s := w.sink;
      World(Step(s, a),
            if a.TrySend? && !s.channelClosed then
              w.offers + [Offer(a.event, a.loopParked || |s.queue| < s.capacity, |s.queue|)]
            else w.offers,
            if a.Deliver? then w.delivered + [s.inHand.value] else w.delivered)
  }

  function Run(capacity: nat, acts: seq<Action>): World {
    if acts == [] then World(Start(capacity), [], [])
    else StepWorld(Run(capacity, acts[..|acts| - 1]), acts[|acts| - 1])
  }

  predicate Legal(capacity: nat, acts: seq<Action>) {
    forall i :: 0 <= i < |acts| ==> Enabled(Run(capacity, acts[..i]).sink, acts[i])
  }

  function Kept(offers: seq<Offer>): seq<AuditEvent> {
    if offers == [] then []
    else
      var last := offers[|offers| - 1];
      Kept(offers[..|offers| - 1]) + if last.kept then [last.event] else []
  }

  function Refused(offers: seq<Offer>): nat {
    if offers == [] then 0
    else Refused(offers[..|offers| - 1]) + if offers[|offers| - 1].kept then 0 else 1
  }

  function Emitted(offers: seq<Offer>): seq<AuditEvent> {
    seq(|offers|, i requires 0 <= i < |offers| => offers[i].event)
  }

  function Hand(s: Sink): seq<AuditEvent> {
    if s.inHand.Some? then [s.inHand.value] else []
  }

  predicate Accounted(w: World) {
    && Kept(w.offers) == w.delivered + (Hand(w.sink) + w.sink.queue)
    && Refused(w.offers) == w.sink.dropped + |w.sink.counting|
    && |w.sink.queue| <= w.sink.capacity
    && (forall i :: 0 <= i < |w.offers| && !w.offers[i].kept ==> w.offers[i].waiting == w.sink.capacity)
  }

  predicate WellClosed(s: Sink) {
    && (s.exited ==> s.channelClosed && s.queue == [] && s.inHand.None?)
    && (s.closing ==> s.closed && !s.channelClosed)
    && (s.channelClosed ==> s.closed)
  }

  lemma OfferStep(w: World, a: Action)
    requires Accounted(w) && a.TrySend? && Enabled(w.sink, a) && !w.sink.channelClosed
    ensures Accounted(StepWorld(w, a))
  {
    var w' := StepWorld(w, a);
    assert w'.offers[..|w'.offers| - 1] == w.offers;
    if a.loopParked {
      assert Hand(w.sink) + w.sink.queue == [] && Hand(w'.sink) + w'.sink.queue == [a.event];
    } else if |w.sink.queue| < w.sink.capacity {
      assert Hand(w'.sink) + w'.sink.queue == (Hand(w.sink) + w.sink.queue) + [a.event];
    }
  }

  lemma LoopStep(w: World, a: Action)
    requires Accounted(w) && (a.Receive? || a.Deliver?) && Enabled(w.sink, a)
    ensures Accounted(StepWorld(w, a))
  {
    if a.Deliver? {
      var x := w.sink.inHand.value;
      assert w.delivered + ([x] + w.sink.queue) == (w.delivered + [x]) + ([] + w.sink.queue);
    } else if w.sink.queue != [] {
      assert [] + w.sink.queue == [w.sink.queue[0]] + w.sink.queue[1..];
    }
  }

  lemma StepAccounted(w: World, a: Action)
    requires Accounted(w)
    ensures Accounted(StepWorld(w, a))
  {
    if Enabled(w.sink, a) {
      if a.TrySend? && !w.sink.channelClosed {
        OfferStep(w, a);
      } else if a.Receive? || a.Deliver? {
        LoopStep(w, a);
      } else {
        assert Hand(StepWorld(w, a).sink) == Hand(w.sink);
      }
    }
  }

  lemma StepWellClosed(w: World, a: Action)
    requires WellClosed(w.sink)
    ensures WellClosed(StepWorld(w, a).sink) && StepWorld(w, a).sink.capacity == w.sink.capacity
  {
  }

  /** What every interleaving keeps, for every capacity including zero. */
  lemma {:induction false} SinkInvariant(capacity: nat, acts: seq<Action>)
    ensures var w := Run(capacity, acts);
      Accounted(w) && WellClosed(w.sink) && w.sink.capacity == capacity
  {
    if acts != [] {
      SinkInvariant(capacity, acts[..|acts| - 1]);
      StepAccounted(Run(capacity, acts[..|acts| - 1]), acts[|acts| - 1]);
      StepWellClosed(Run(capacity, acts[..|acts| - 1]), acts[|acts| - 1]);
    }
  }

  lemma {:induction false} KeptOrRefused(offers: seq<Offer>)
    ensures |offers| == |Kept(offers)| + Refused(offers)
  {
    if offers != [] {
      KeptOrRefused(offers[..|offers| - 1]);
    }
  }

  /** Nothing is lost uncounted: emitted = delivered + in hand + queued + dropped + about to be counted. */
  lemma Conservation(capacity: nat, acts: seq<Action>)
    ensures var w := Run(capacity, acts);
      |w.offers| == |w.delivered| + |Hand(w.sink)| + |w.sink.queue| + w.sink.dropped + |w.sink.counting|
  {
    SinkInvariant(capacity, acts);
    KeptOrRefused(Run(capacity, acts).offers);
  }

  /** An event is refused only by a full queue. */
  lemma DropsOnlyWhenFull(capacity: nat, acts: seq<Action>, i: nat)
    requires i < |Run(capacity, acts).offers| && !Run(capacity, acts).offers[i].kept
    ensures Run(capacity, acts).offers[i].waiting == capacity
  {
    SinkInvariant(capacity, acts);
  }

  /** Once the loop has ended and no drop is left to count, delivered and dropped make up everything. */
  lemma ClosedAndDrained(capacity: nat, acts: seq<Action>)
    requires Run(capacity, acts).sink.exited && Run(capacity, acts).sink.counting == {}
    ensures var w := Run(capacity, acts);
      w.delivered == Kept(w.offers) && |w.delivered| + w.sink.dropped == |w.offers|
  {
    SinkInvariant(capacity, acts);
    Conservation(capacity, acts);
  }

  // ----- Order per emitter -----

  function By(emitter: nat, events: seq<AuditEvent>): seq<AuditEvent> {
    if events == [] then []
    else
      var last := events[|events| - 1];
      By(emitter, events[..|events| - 1]) + if last.emitter == emitter then [last] else []
  }

  /** a can be had from b by leaving elements out. */
  predicate Subsequence(a: seq<AuditEvent>, b: seq<AuditEvent>) {
    if a == [] then true
    else if b == [] then false
    else if a[|a| - 1] == b[|b| - 1] && Subsequence(a[..|a| - 1], b[..|b| - 1]) then true
    else Subsequence(a, b[..|b| - 1])
  }

  lemma {:induction false} ByAppend(emitter: nat, a: seq<AuditEvent>, b: seq<AuditEvent>)
    ensures By(emitter, a + b) == By(emitter, a) + By(emitter, b)
  {
    if b == [] {
      assert a + b == a;
    } else {
      ByAppend(emitter, a, b[..|b| - 1]);
      assert (a + b)[..|a + b| - 1] == a + b[..|b| - 1];
    }
  }

  lemma {:induction false} DropTail(a: seq<AuditEvent>, b: seq<AuditEvent>, c: seq<AuditEvent>)
    requires Subsequence(a + b, c)
    ensures Subsequence(a, c)
  {
    if b == [] {
      assert a + b == a;
    } else if c != [] {
      var ab := a + b;
      assert ab[..|ab| - 1] == a + b[..|b| - 1];
      if ab[|ab| - 1] == c[|c| - 1] && Subsequence(ab[..|ab| - 1], c[..|c| - 1]) {
        DropTail(a, b[..|b| - 1], c[..|c| - 1]);
      } else {
        DropTail(a, b, c[..|c| - 1]);
      }
    }
  }

  lemma SubsequenceGrows(a: seq<AuditEvent>, b: seq<AuditEvent>, x: AuditEvent)
    requires Subsequence(a, b)
    ensures Subsequence(a, b + [x]) && Subsequence(a + [x], b + [x])
  {
    assert (a + [x])[..|a|] == a && (b + [x])[..|b|] == b;
  }

  lemma ByLast(emitter: nat, events: seq<AuditEvent>, x: AuditEvent)
    ensures By(emitter, events + [x]) == if x.emitter == emitter then By(emitter, events) + [x] else By(emitter, events)
  {
    assert (events + [x])[..|events|] == events;
  }

  lemma {:induction false} KeptBySubsequence(emitter: nat, offers: seq<Offer>)
    ensures Subsequence(By(emitter, Kept(offers)), By(emitter, Emitted(offers)))
  {
    if offers != [] {
      var front, last := offers[..|offers| - 1], offers[|offers| - 1];
      KeptBySubsequence(emitter, front);
      var kept, all := Kept(front), Emitted(front);
      assert Emitted(offers) == all + [last.event];
      assert Kept(offers) == if last.kept then kept + [last.event] else kept;
      ByLast(emitter, all, last.event);
      ByLast(emitter, kept, last.event);
      SubsequenceGrows(By(emitter, kept), By(emitter, all), last.event);
    }
  }

  /** Each emitter's events come out in the order it emitted them, with some left out. */
  lemma DeliveredInEmitterOrder(capacity: nat, acts: seq<Action>, emitter: nat)
    ensures var w := Run(capacity, acts);
      Subsequence(By(emitter, w.delivered), By(emitter, Emitted(w.offers)))
  {
    var w := Run(capacity, acts);
    SinkInvariant(capacity, acts);
    KeptBySubsequence(emitter, w.offers);
    var rest := Hand(w.sink) + w.sink.queue;
    ByAppend(emitter, w.delivered, rest);
    DropTail(By(emitter, w.delivered), By(emitter, rest), By(emitter, Emitted(w.offers)));
  }

  // ----- Close -----

  predicate SendsAfterClose(acts: seq<Action>) {
    exists i, j :: 0 <= i < j < |acts| && acts[i].CloseChannel? && acts[j].TrySend?
  }

  predicate Closes(acts: seq<Action>) {
    exists i :: 0 <= i < |acts| && acts[i].CloseChannel?
  }

  lemma LegalFront(capacity: nat, acts: seq<Action>)
    requires Legal(capacity, acts) && acts != []
    ensures Legal(capacity, acts[..|acts| - 1]) && Enabled(Run(capacity, acts[..|acts| - 1]).sink, acts[|acts| - 1])
  {
    var front := acts[..|acts| - 1];
    forall i | 0 <= i < |front| ensures Enabled(Run(capacity, front[..i]).sink, front[i]) {
      assert front[..i] == acts[..i];
    }
  }

  lemma ClosesFront(acts: seq<Action>)
    requires acts != []
    ensures Closes(acts) <==> Closes(acts[..|acts| - 1]) || acts[|acts| - 1].CloseChannel?
    ensures SendsAfterClose(acts) <==>
            SendsAfterClose(acts[..|acts| - 1]) || (Closes(acts[..|acts| - 1]) && acts[|acts| - 1].TrySend?)
  {
    var front, last := acts[..|acts| - 1], |acts| - 1;
    assert forall i :: 0 <= i < last ==> front[i] == acts[i];
    if Closes(front) {
      var i :| 0 <= i < |front| && front[i].CloseChannel?;
      assert acts[i].CloseChannel? && i < last;
    }
    if SendsAfterClose(front) {
      var i, j :| 0 <= i < j < |front| && front[i].CloseChannel? && front[j].TrySend?;
      assert acts[i].CloseChannel? && acts[j].TrySend?;
    }
    if acts[last].CloseChannel? {
      assert Closes(acts);
    }
    if SendsAfterClose(acts) {
      var i, j :| 0 <= i < j < |acts| && acts[i].CloseChannel? && acts[j].TrySend?;
      assert front[i].CloseChannel? && (j < last ==> front[j].TrySend?);
    }
  }

  lemma {:induction false} ClosedIffCloseStep(capacity: nat, acts: seq<Action>)
    requires Legal(capacity, acts)
    ensures Run(capacity, acts).sink.channelClosed <==> Closes(acts)
  {
    if acts != [] {
      LegalFront(capacity, acts);
      ClosesFront(acts);
      ClosedIffCloseStep(capacity, acts[..|acts| - 1]);
      SinkInvariant(capacity, acts[..|acts| - 1]);
    }
  }

  /** Emit does not look at the closed flag: a run panics exactly when a send comes after the channel is closed. */
  lemma {:induction false} PanicsExactly(capacity: nat, acts: seq<Action>)
    requires Legal(capacity, acts)
    ensures Run(capacity, acts).sink.panicked <==> SendsAfterClose(acts)
  {
    if acts != [] {
      LegalFront(capacity, acts);
      ClosesFront(acts);
      PanicsExactly(capacity, acts[..|acts| - 1]);
      ClosedIffCloseStep(capacity, acts[..|acts| - 1]);
      SinkInvariant(capacity, acts[..|acts| - 1]);
    }
  }

  /** A legal run that panics, whatever the capacity: Close, then one Emit. */
  lemma EmitAfterClosePanics(capacity: nat, event: AuditEvent)
    ensures var acts := [BeginClose, CloseChannel, TrySend(event, false)];
      Legal(capacity, acts) && Run(capacity, acts).sink.panicked
  {
    var acts := [BeginClose, CloseChannel, TrySend(event, false)];
    assert acts[..0] == [] && acts[..1] == [BeginClose] && acts[..2] == [BeginClose, CloseChannel];
    assert acts[..1][..0] == [] && acts[..2][..1] == acts[..1] && acts[..3] == acts;
    assert Run(capacity, acts[..1]) == StepWorld(Run(capacity, []), BeginClose);
    assert Run(capacity, acts[..2]) == StepWorld(Run(capacity, acts[..1]), CloseChannel);
    assert Run(capacity, acts) == StepWorld(Run(capacity, acts[..2]), acts[2]);
    assert Enabled(Run(capacity, acts[..0]).sink, acts[0]);
    assert Enabled(Run(capacity, acts[..1]).sink, acts[1]);
  }

  /** However often Close is called, the channel is closed at most once. */
  lemma ClosedAtMostOnce(capacity: nat, acts: seq<Action>, i: nat, j: nat)
    requires Legal(capacity, acts) && i < j < |acts|
    ensures !(acts[i].CloseChannel? && acts[j].CloseChannel?)
  {
    var before := acts[..j];
    forall k | 0 <= k < j ensures Enabled(Run(capacity, before[..k]).sink, before[k]) {
      assert before[..k] == acts[..k];
    }
    if acts[i].CloseChannel? {
      assert before[i].CloseChannel?;
      ClosedIffCloseStep(capacity, before);
      SinkInvariant(capacity, before);
      assert Enabled(Run(capacity, before).sink, acts[j]);
    }
  }

  // ----- The loop drains what was accepted -----

  predicate LoopOnly(acts: seq<Action>) {
    forall i :: 0 <= i < |acts| ==> acts[i].Receive? || acts[i].Deliver?
  }

  function RunFrom(w: World, acts: seq<Action>): World
    decreases |acts|
  {
    if acts == [] then w else RunFrom(StepWorld(w, acts[0]), acts[1..])
  }

  lemma {:induction false} RunInTwoParts(capacity: nat, acts: seq<Action>, more: seq<Action>)
    ensures Run(capacity, acts + more) == RunFrom(Run(capacity, acts), more)
    decreases |more|
  {
    if more == [] {
      assert acts + more == acts;
    } else {
      assert (acts + [more[0]])[..|acts|] == acts;
      assert acts + more == (acts + [more[0]]) + more[1..];
      RunInTwoParts(capacity, acts + [more[0]], more[1..]);
    }
  }

  lemma {:induction false} LoopDrainsFrom(w: World) returns (more: seq<Action>)
    requires w.sink.channelClosed && !w.sink.panicked
    ensures LoopOnly(more) && RunFrom(w, more).sink.exited
    decreases !w.sink.exited, |w.sink.queue|, w.sink.inHand.Some?
  {
    if w.sink.exited {
      more := [];
    } else {
      var a := if w.sink.inHand.Some? then Deliver else Receive;
      var rest := LoopDrainsFrom(StepWorld(w, a));
      more := [a] + rest;
    }
  }

  /** After the channel is closed the delivery loop, left alone, can hand over everything accepted and end. */
  lemma LoopDrains(capacity: nat, acts: seq<Action>)
    requires Run(capacity, acts).sink.channelClosed && !Run(capacity, acts).sink.panicked
    ensures exists more :: LoopOnly(more) && Run(capacity, acts + more).sink.exited
                           && Run(capacity, acts + more).delivered == Kept(Run(capacity, acts).offers)
  {
    var more := LoopDrainsFrom(Run(capacity, acts));
    RunInTwoParts(capacity, acts, more);
    LoopOffersNothing(Run(capacity, acts), more);
    SinkInvariant(capacity, acts + more);
  }

  lemma {:induction false} LoopOffersNothing(w: World, more: seq<Action>)
    requires LoopOnly(more)
    ensures RunFrom(w, more).offers == w.offers
    decreases |more|
  {
    if more != [] {
      LoopOffersNothing(StepWorld(w, more[0]), more[1..]);
    }
  }
}
