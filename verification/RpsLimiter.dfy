/** RPSLimiter: a request window restarted lazily by the first call after it has run out. */
module RpsLimiting {
  import opened Common
  import opened Windows

  datatype Rps = Rps(limit: int, count: int, window: int, start: int, backoff: Option<int>)

  datatype Event = Wait(now: int) | Backoff(now: int, duration: int)

  /** A window that has run out is restarted by the call that finds it so. */
  function Renew(s: Rps, now: int): Rps {
    if now - s.start >= s.window then s.(count := 0, start := now) else s
  }

  /** The backoff test comes before the window is looked at. */
  function Step(s: Rps, ev: Event): (Rps, bool) {
    match ev
    case Backoff(now, duration) => (s.(backoff := Some(now + duration)), false)
    case Wait(now) =>
      if s.backoff.Some? && now < s.backoff.value then (s, false)
      else
        var t := Renew(s, now);
        if t.count >= t.limit then (t, false) else (t.(count := t.count + 1), true)
  }

  class RPSLimiter {
    var limit: int
    var count: int
    var window: int
    var start: int
    var backoff: Option<int>

    function State(): Rps
      reads this
    {
      Rps(limit, count, window, start, backoff)
    }

    constructor (rps: int, window: int, now: int)
      ensures State() == Fresh(rps, window, now)
    {
      limit, count, this.window, start, backoff := rps, 0, window, now, None;
    }

    /** true is the nil error. */
    method Wait(now: int) returns (ok: bool)
      modifies this
      ensures (State(), ok) == Step(old(State()), Event.Wait(now))
    {
      if backoff.Some? && now < backoff.value {
        return false;
      }
      if now - start >= window {
        count := 0;
        start := now;
      }
      if count >= limit {
        return false;
      }
      count := count + 1;
      return true;
    }

    method Backoff(now: int, duration: int)
      modifies this
      ensures State() == Step(old(State()), Event.Backoff(now, duration)).0
    {
      backoff := Some(now + duration);
    }
  }

  // ----- Runs -----

  function Fresh(limit: int, window: int, now: int): Rps {
    Rps(limit, 0, window, now, None)
  }

  datatype Trace = Trace(s: Rps, log: seq<Admit>)

  function StepTrace(t: Trace, ev: Event): Trace {
    var (s, ok) := Step(t.s, ev);
    Trace(s, if ok then t.log + [Admit(ev.now, 1, s.start)] else t.log)
  }

  function Run(s: Rps, evs: seq<Event>): Trace {
    if evs == [] then Trace(s, []) else StepTrace(Run(s, evs[..|evs| - 1]), evs[|evs| - 1])
  }

  /** A clock that never goes back, started when the limiter was made. */
  predicate Timed(start: int, evs: seq<Event>) {
    && (forall i :: 0 <= i < |evs| ==> start <= evs[i].now)
    && (forall i, j :: 0 <= i < j < |evs| ==> evs[i].now <= evs[j].now)
  }

  function Rate(limit: int): nat {
    Max(limit, 0)
  }

  function Clock(start: int, evs: seq<Event>): int {
    if evs == [] then start else evs[|evs| - 1].now
  }

  /** What holds of the log at time `now`; `w` is any window start. */
  predicate Invariant(t: Trace, now: int, w: int) {
    && OpenWindow(t.log, t.s.window, t.s.start, now)
    && SumWindow(t.log, t.s.start) == t.s.count
    && SumWindow(t.log, w) <= Rate(t.s.limit)
  }

  predicate SameConfig(a: Rps, b: Rps) {
    a.limit == b.limit && a.window == b.window
  }

  /** A count within the limit makes room for one call in the open window. */
  lemma AdmitInvariant(t: Trace, now: int, w: int)
    requires Invariant(t, now, w) && now < t.s.start + t.s.window && t.s.count < t.s.limit
    ensures Invariant(Trace(t.s.(count := t.s.count + 1), t.log + [Admit(now, 1, t.s.start)]), now, w)
  {
    var a := Admit(now, 1, t.s.start);
    WindowAdmits(t.log, t.s.window, t.s.start, now, 1);
    AppendWindow(t.log, a, t.s.start);
    AppendWindow(t.log, a, w);
  }

  lemma RenewInvariant(t: Trace, now: int, later: int, w: int)
    requires Invariant(t, now, w) && now <= later
    ensures Invariant(t.(s := Renew(t.s, later)), later, w) && later < Renew(t.s, later).start + t.s.window
  {
    if later - t.s.start >= t.s.window {
      WindowRestarts(t.log, t.s.window, t.s.start, now, later);
    }
  }

  lemma UnpausedStep(t: Trace, ev: Event)
    requires ev.Wait? && !(t.s.backoff.Some? && ev.now < t.s.backoff.value)
    ensures var s := Renew(t.s, ev.now);
      StepTrace(t, ev) ==
      if s.count < s.limit then Trace(s.(count := s.count + 1), t.log + [Admit(ev.now, 1, s.start)]) else Trace(s, t.log)
  {
  }

  lemma UnpausedInvariant(t: Trace, now: int, ev: Event, w: int)
    requires Invariant(t, now, w) && now <= ev.now && ev.Wait? && !(t.s.backoff.Some? && ev.now < t.s.backoff.value)
    ensures Invariant(StepTrace(t, ev), ev.now, w)
  {
    var t' := t.(s := Renew(t.s, ev.now));
    RenewInvariant(t, now, ev.now, w);
    UnpausedStep(t, ev);
    if t'.s.count < t'.s.limit {
      AdmitInvariant(t', ev.now, w);
    }
  }

  /** Without an admission only the deadline can change. */
  lemma PausedInvariant(t: Trace, now: int, ev: Event, w: int)
    requires Invariant(t, now, w) && now <= ev.now
    requires ev.Wait? ==> t.s.backoff.Some? && ev.now < t.s.backoff.value
    ensures Invariant(StepTrace(t, ev), ev.now, w)
  {
    assert StepTrace(t, ev) == Trace(t.s.(backoff := if ev.Wait? then t.s.backoff else Some(ev.now + ev.duration)), t.log);
  }

  lemma StepConfig(t: Trace, ev: Event)
    ensures SameConfig(StepTrace(t, ev).s, t.s)
  {
  }

  lemma StepInvariant(t: Trace, now: int, ev: Event, w: int)
    requires Invariant(t, now, w) && now <= ev.now
    ensures Invariant(StepTrace(t, ev), ev.now, w) && SameConfig(StepTrace(t, ev).s, t.s)
  {
    StepConfig(t, ev);
    if ev.Wait? && !(t.s.backoff.Some? && ev.now < t.s.backoff.value) {
      UnpausedInvariant(t, now, ev, w);
    } else {
      PausedInvariant(t, now, ev, w);
    }
  }

  lemma RunLast(s: Rps, evs: seq<Event>, ev: Event)
    ensures Run(s, evs + [ev]) == StepTrace(Run(s, evs), ev)
  {
    assert (evs + [ev])[..|evs|] == evs;
  }

  lemma TimedFront(start: int, front: seq<Event>, last: Event)
    requires Timed(start, front + [last])
    ensures Timed(start, front) && Clock(start, front) <= last.now
  {
    var evs := front + [last];
    assert forall i :: 0 <= i < |front| ==> evs[i] == front[i];
    assert evs[|front|] == last;
  }

  lemma {:induction false} RunInvariant(s: Rps, evs: seq<Event>, w: int)
    requires s.window > 0 && s.count == 0 && Timed(s.start, evs)
    ensures Invariant(Run(s, evs), Clock(s.start, evs), w) && SameConfig(Run(s, evs).s, s)
  {
    if evs != [] {
      var front, last := evs[..|evs| - 1], evs[|evs| - 1];
      assert evs == front + [last];
      TimedFront(s.start, front, last);
      RunInvariant(s, front, w);
      StepInvariant(Run(s, front), Clock(s.start, front), last, w);
      RunLast(s, front, last);
    }
  }

  lemma RunWithinRate(limit: int, window: int, start: int, evs: seq<Event>)
    requires window > 0 && Timed(start, evs)
    ensures var log := Run(Fresh(limit, window, start), evs).log;
      Spaced(log, window) && InTimeOrder(log) && WithinBudget(log, Rate(limit))
  {
    var log := Run(Fresh(limit, window, start), evs).log;
    RunInvariant(Fresh(limit, window, start), evs, start);
    forall w
      ensures SumWindow(log, w) <= Rate(limit)
    {
      RunInvariant(Fresh(limit, window, start), evs, w);
    }
  }

  function AdmittedIn(limit: int, window: int, start: int, evs: seq<Event>, from: int, span: nat): int {
    SumBetween(Run(Fresh(limit, window, start), evs).log, from, from + span)
  }

  /** In any interval of `span` ticks at most limit * (ceil(span / window) + 1) calls get through, and sharper. */
  lemma SlidingBound(limit: int, window: int, start: int, evs: seq<Event>, from: int, span: nat)
    requires window > 0 && span > 0 && Timed(start, evs)
    ensures var admitted := AdmittedIn(limit, window, start, evs, from, span);
      && admitted <= Rate(limit) * MostWindows(span, window)
      && admitted <= Rate(limit) * (CeilDiv(span, window) + 1)
  {
    RunWithinRate(limit, window, start, evs);
    IntervalBound(Run(Fresh(limit, window, start), evs).log, window, Rate(limit), from, span);
    MostWindowsRounded(span, window);
    MulMonotone(Rate(limit), MostWindows(span, window), CeilDiv(span, window) + 1);
  }

  // ----- The nominal rate is not a sliding bound -----

  function Burst(now: int, n: nat): seq<Event> {
    seq(n, _ => Wait(now))
  }

  predicate HasRoom(s: Rps, now: int, n: nat) {
    s.backoff.None? && now - s.start < s.window && s.count + n <= s.limit
  }

  lemma OneAdmitted(t: Trace, now: int, from: int, to: int)
    requires HasRoom(t.s, now, 1)
    ensures StepTrace(t, Wait(now)).s == t.s.(count := t.s.count + 1)
    ensures SumBetween(StepTrace(t, Wait(now)).log, from, to) == SumBetween(t.log, from, to) + if from <= now < to then 1 else 0
  {
    AppendBetween(t.log, Admit(now, 1, t.s.start), from, to);
  }

  lemma RestartAdmitted(t: Trace, now: int, from: int, to: int)
    requires t.s.backoff.None? && t.s.window > 0 && now - t.s.start >= t.s.window && t.s.limit > 0
    ensures StepTrace(t, Wait(now)).s == t.s.(count := 1, start := now)
    ensures SumBetween(StepTrace(t, Wait(now)).log, from, to) == SumBetween(t.log, from, to) + if from <= now < to then 1 else 0
  {
    AppendBetween(t.log, Admit(now, 1, now), from, to);
  }

  /** `t` is `t0` after k calls at time `now` that were all admitted. */
  predicate AfterBurst(t0: Trace, t: Trace, now: int, k: nat, from: int, to: int) {
    && t.s == t0.s.(count := t0.s.count + k)
    && SumBetween(t.log, from, to) == SumBetween(t0.log, from, to) + if from <= now < to then k else 0
  }

  lemma OneMore(t0: Trace, t: Trace, now: int, k: nat, from: int, to: int)
    requires HasRoom(t0.s, now, k + 1) && AfterBurst(t0, t, now, k, from, to)
    ensures AfterBurst(t0, StepTrace(t, Wait(now)), now, k + 1, from, to)
  {
    OneAdmitted(t, now, from, to);
  }

  lemma BurstLast(s: Rps, evs: seq<Event>, now: int, n: nat)
    requires n > 0
    ensures Run(s, evs + Burst(now, n)) == StepTrace(Run(s, evs + Burst(now, n - 1)), Wait(now))
  {
    assert evs + Burst(now, n) == (evs + Burst(now, n - 1)) + [Wait(now)];
    RunLast(s, evs + Burst(now, n - 1), Wait(now));
  }

  lemma {:induction false} BurstAdmitted(s: Rps, evs: seq<Event>, now: int, n: nat, from: int, to: int)
    requires HasRoom(Run(s, evs).s, now, n)
    ensures AfterBurst(Run(s, evs), Run(s, evs + Burst(now, n)), now, n, from, to)
  {
    if n == 0 {
      assert evs + Burst(now, 0) == evs;
    } else {
      BurstAdmitted(s, evs, now, n - 1, from, to);
      OneMore(Run(s, evs), Run(s, evs + Burst(now, n - 1)), now, n - 1, from, to);
      BurstLast(s, evs, now, n);
    }
  }

  /** A full burst at each packed time: the last tick of the first window, then the first tick of every next one. */
  function Bursts(limit: nat, window: int, start: int, n: nat): seq<Event> {
    if n == 0 then [] else Bursts(limit, window, start, n - 1) + Burst(PackedTime(start, window, n - 1), limit)
  }

  lemma {:induction false} BurstsTimed(limit: nat, window: int, start: int, n: nat)
    requires window > 0
    ensures var evs := Bursts(limit, window, start, n);
      && Timed(start, evs)
      && forall i :: 0 <= i < |evs| ==> n > 0 && evs[i].now <= PackedTime(start, window, n - 1)
  {
    if n > 0 {
      BurstsTimed(limit, window, start, n - 1);
      PackedTimesRise(start, window, n - 1, n);
      if n > 1 {
        PackedTimesRise(start, window, n - 2, n - 1);
      }
    }
  }

  /** The limiter with its window full. */
  function Full(limit: nat, window: int, start: int): Rps {
    Rps(limit, limit, window, start, None)
  }

  lemma BurstIsOneAndRest(now: int, n: nat)
    requires n > 0
    ensures Burst(now, n) == [Wait(now)] + Burst(now, n - 1)
  {
  }

  /** The first call after the window has run out. */
  lemma RestartFirst(t: Trace, limit: nat, window: int, start: int, now: int, from: int, to: int)
    requires limit > 0 && window > 0 && now == start + window && from <= now < to && t.s == Full(limit, window, start)
    ensures var t' := StepTrace(t, Wait(now));
      && t'.s == Full(limit, window, now).(count := 1) && HasRoom(t'.s, now, limit - 1)
      && SumBetween(t'.log, from, to) == SumBetween(t.log, from, to) + 1
  {
    RestartAdmitted(t, now, from, to);
  }

  /** From `t0` to `t1` the window at `now` is filled, the limit getting through in the interval. */
  predicate Refilled(t0: Trace, t1: Trace, limit: nat, window: int, now: int, from: int, to: int) {
    t1.s == Full(limit, window, now) && SumBetween(t1.log, from, to) == SumBetween(t0.log, from, to) + limit
  }

  lemma RestFull(t: Trace, t0: Trace, t1: Trace, limit: nat, window: int, start: int, now: int, from: int, to: int)
    requires limit > 0 && window > 0 && now == start + window && from <= now < to
    requires t.s == Full(limit, window, start) && t0 == StepTrace(t, Wait(now)) && AfterBurst(t0, t1, now, limit - 1, from, to)
    ensures Refilled(t, t1, limit, window, now, from, to)
  {
    RestartFirst(t, limit, window, start, now, from, to);
  }

  /** A full burst at the moment the window has run out. */
  lemma RestartBurst(s: Rps, evs: seq<Event>, limit: nat, window: int, start: int, now: int, from: int, to: int)
    requires limit > 0 && window > 0 && now == start + window && from <= now < to
    requires Run(s, evs).s == Full(limit, window, start)
    ensures Refilled(Run(s, evs), Run(s, evs + Burst(now, limit)), limit, window, now, from, to)
  {
    var first := evs + [Wait(now)];
    RunLast(s, evs, Wait(now));
    RestartFirst(Run(s, evs), limit, window, start, now, from, to);
    BurstAdmitted(s, first, now, limit - 1, from, to);
    RestFull(Run(s, evs), Run(s, first), Run(s, first + Burst(now, limit - 1)), limit, window, start, now, from, to);
    BurstIsOneAndRest(now, limit);
    assert evs + Burst(now, limit) == first + Burst(now, limit - 1);
  }

  lemma FirstBurst(limit: nat, window: int, start: int, to: int)
    requires limit > 0 && window > 0 && start + window - 1 < to
    ensures var t := Run(Fresh(limit, window, start), Burst(start + window - 1, limit));
      t.s == Full(limit, window, start) && SumBetween(t.log, start + window - 1, to) == limit
  {
    var now := start + window - 1;
    assert [] + Burst(now, limit) == Burst(now, limit);
    BurstAdmitted(Fresh(limit, window, start), [], now, limit, now, to);
  }

  /** After n packed bursts: the last window is full, and n times the limit got through from the first burst on. */
  predicate AllBurstsAdmitted(t: Trace, limit: nat, window: int, start: int, n: nat, to: int) {
    t.s == Full(limit, window, start + window * (n - 1)) && SumBetween(t.log, start + window - 1, to) == limit * n
  }

  lemma FirstBurstAdmitted(limit: nat, window: int, start: int, to: int)
    requires limit > 0 && window > 0 && start + window - 1 < to
    ensures AllBurstsAdmitted(Run(Fresh(limit, window, start), Bursts(limit, window, start, 1)), limit, window, start, 1, to)
  {
    assert Bursts(limit, window, start, 1) == Burst(start + window - 1, limit);
    FirstBurst(limit, window, start, to);
  }

  lemma NextBurstAdmitted(limit: nat, window: int, start: int, n: nat, to: int)
    requires limit > 0 && window > 0 && n > 0 && start + window - 1 <= PackedTime(start, window, n) < to
    requires AllBurstsAdmitted(Run(Fresh(limit, window, start), Bursts(limit, window, start, n)), limit, window, start, n, to)
    ensures AllBurstsAdmitted(Run(Fresh(limit, window, start), Bursts(limit, window, start, n + 1)), limit, window, start, n + 1, to)
  {
    NextMultiple(window, n - 1);
    NextMultiple(limit, n);
    var now := PackedTime(start, window, n);
    RestartBurst(Fresh(limit, window, start), Bursts(limit, window, start, n), limit, window, start + window * (n - 1),
                 now, start + window - 1, to);
  }

  lemma {:induction false} BurstsAdmitted(limit: nat, window: int, start: int, n: nat, span: nat)
    requires limit > 0 && window > 0 && span > 0 && 0 < n <= MostWindows(span, window)
    ensures AllBurstsAdmitted(Run(Fresh(limit, window, start), Bursts(limit, window, start, n)), limit, window, start, n,
                              start + window - 1 + span)
  {
    if n == 1 {
      FirstBurstAdmitted(limit, window, start, start + window - 1 + span);
    } else {
      BurstsAdmitted(limit, window, start, n - 1, span);
      PackedInSpan(start, window, span, n - 1);
      NextBurstAdmitted(limit, window, start, n - 1, start + window - 1 + span);
    }
  }

  /** A run that admits in one interval exactly what SlidingBound allows, for every span. */
  lemma SlidingBoundIsMet(limit: nat, window: int, start: int, span: nat)
    requires limit > 0 && window > 0 && span > 0
    ensures var evs := Bursts(limit, window, start, MostWindows(span, window));
      Timed(start, evs) && AdmittedIn(limit, window, start, evs, start + window - 1, span) == limit * MostWindows(span, window)
  {
    BurstsTimed(limit, window, start, MostWindows(span, window));
    BurstsAdmitted(limit, window, start, MostWindows(span, window), span);
  }

  /** Two full bursts within one window's length. */
  lemma TwoBurstsAdmitted(limit: nat, window: nat)
    requires limit > 0 && window > 1
    ensures var evs := Bursts(limit, window, 0, 2);
      Timed(0, evs) && AdmittedIn(limit, window, 0, evs, window - 1, window) == 2 * limit
  {
    TwoWindows(window);
    SlidingBoundIsMet(limit, window, 0, window);
  }

  /** Every interval as long as the window admits at most the limit. */
  ghost predicate KeepsNominalRate(limit: nat, window: nat) {
    forall evs: seq<Event>, from: int | Timed(0, evs) ::
      AdmittedIn(limit, window, 0, evs, from, window) <= limit
  }

  /** The limit holds per sliding window only in the degenerate cases; otherwise twice the limit can pass. */
  lemma NominalRateExactly(limit: nat, window: nat)
    requires window > 0
    ensures KeepsNominalRate(limit, window) <==> limit == 0 || window == 1
  {
    if limit == 0 || window == 1 {
      forall evs: seq<Event>, from: int | Timed(0, evs)
        ensures AdmittedIn(limit, window, 0, evs, from, window) <= limit
      {
        SlidingBound(limit, window, 0, evs, from, window);
      }
    } else {
      TwoBurstsAdmitted(limit, window);
    }
  }

  // ----- Backing off -----

  lemma {:induction false} BackoffStays(s: Rps, before: seq<Event>, pause: Event, between: seq<Event>)
    requires pause.Backoff? && forall i :: 0 <= i < |between| ==> !between[i].Backoff?
    ensures Run(s, before + [pause] + between).s.backoff == Some(pause.now + pause.duration)
  {
    if between == [] {
      assert before + [pause] + between == before + [pause];
      RunLast(s, before, pause);
    } else {
      var front, last := between[..|between| - 1], between[|between| - 1];
      BackoffStays(s, before, pause, front);
      assert before + [pause] + between == (before + [pause] + front) + [last];
      RunLast(s, before + [pause] + front, last);
    }
  }

  /** After a Backoff and until its deadline or the next Backoff, every call is rejected and nothing is counted. */
  lemma BackoffHolds(s: Rps, before: seq<Event>, pause: Event, between: seq<Event>, call: Event)
    requires pause.Backoff? && call.Wait? && forall i :: 0 <= i < |between| ==> !between[i].Backoff?
    requires call.now < pause.now + pause.duration
    ensures Run(s, before + [pause] + between + [call]).log == Run(s, before + [pause] + between).log
  {
    BackoffStays(s, before, pause, between);
    RunLast(s, before + [pause] + between, call);
  }
}
