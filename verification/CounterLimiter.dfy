/** CounterLimiter: a counter that decays by one every `decay` ticks, brought up to date lazily. */
module CounterLimiting {
  import opened Common
  import opened Windows

  datatype Counter = Counter(budget: int, current: int, last: int, decay: int, backoff: Option<int>)

  /** Wait reads the clock twice: for the decay, and again for the backoff test. */
  datatype Event =
    | Wait(now: int, later: int, cost: int)
    | Backoff(now: int, duration: int)

  function Decay(s: Counter, now: int): Counter
    requires s.decay > 0 && s.last <= now
  {
    var ticks := (now - s.last) / s.decay;
    if ticks > 0 then s.(current := Max(s.current - ticks, 0), last := s.last + ticks * s.decay) else s
  }

  /** The decision on an up-to-date counter. */
  function Decide(s: Counter, later: int, cost: int): (Counter, bool) {
    if s.backoff.Some? && later < s.backoff.value then (s, false)
    else if s.current + cost > s.budget then (s, false)
    else (s.(current := s.current + cost), true)
  }

  function Step(s: Counter, ev: Event): (Counter, bool)
    requires s.decay > 0 && s.last <= ev.now
  {
    match ev
    case Backoff(now, duration) => (s.(backoff := Some(now + duration)), false)
    case Wait(now, later, cost) => Decide(Decay(s, now), later, cost)
  }

  class CounterLimiter {
    var budget: int
    var current: int
    var last: int
    var decay: int
    var backoff: Option<int>

    function State(): Counter
      reads this
    {
      Counter(budget, current, last, decay, backoff)
    }

    constructor (budget: int, decay: int, now: int)
      ensures State() == Fresh(budget, decay, now)
    {
      this.budget, current, last, this.decay, backoff := budget, 0, now, decay, None;
    }

    method DecayLocked(now: int)
      requires decay > 0 && last <= now
      modifies this
      ensures State() == Decay(old(State()), now)
    {
      var elapsed := now - last;
      var ticks := elapsed / decay;
      if ticks > 0 {
        current := current - ticks;
        if current < 0 {
          current := 0;
        }
        last := last + ticks * decay;
      }
    }

    /** true is the nil error. */
    method Wait(now: int, later: int, cost: int) returns (ok: bool)
      requires decay > 0 && last <= now
      modifies this
      ensures (State(), ok) == Step(old(State()), Event.Wait(now, later, cost))
    {
      DecayLocked(now);
      if backoff.Some? && later < backoff.value {
        return false;
      }
      if current + cost > budget {
        return false;
      }
      current := current + cost;
      return true;
    }

    method Backoff(now: int, duration: int)
      requires decay > 0 && last <= now
      modifies this
      ensures State() == Step(old(State()), Event.Backoff(now, duration)).0
    {
      backoff := Some(now + duration);
    }
  }

  // ----- Runs -----

  function Fresh(budget: int, decay: int, now: int): Counter {
    Counter(budget, 0, now, decay, None)
  }

  predicate Timed(start: int, evs: seq<Event>) {
    && (forall i :: 0 <= i < |evs| ==> start <= evs[i].now && (evs[i].Wait? ==> evs[i].now <= evs[i].later))
    && (forall i, j :: 0 <= i < j < |evs| ==> evs[i].now <= evs[j].now)
  }

  /** Run from a state that is up to date at `start`: final state and every decision. */
  function Run(s: Counter, evs: seq<Event>): (r: (Counter, seq<bool>))
    requires s.decay > 0 && Timed(s.last, evs)
    ensures r.0.decay == s.decay && |r.1| == |evs|
    ensures s.last <= r.0.last && (evs == [] ==> r.0.last == s.last) && (evs != [] ==> r.0.last <= evs[|evs| - 1].now)
  {
    if evs == [] then (s, [])
    else
      var (t, oks) := Run(s, evs[..|evs| - 1]);
      var (u, ok) := Step(t, evs[|evs| - 1]);
      DecayBounds(t, evs[|evs| - 1].now);
      (u, oks + [ok])
  }

  lemma DecayBounds(s: Counter, now: int)
    requires s.decay > 0 && s.last <= now
    ensures s.last <= Decay(s, now).last <= now < Decay(s, now).last + s.decay
  {
    var q := (now - s.last) / s.decay;
    assert now - s.last == s.decay * q + (now - s.last) % s.decay;
    if q > 0 {
      assert s.decay * q >= s.decay;
    } else {
      DivMonotone(0, now - s.last, s.decay);
    }
  }

  // ----- The eager ticker it stands for -----

  /** A machine that decrements at every tick start + i * decay as the tick comes. */
  datatype Ticker = Ticker(budget: int, current: int, nextTick: int, decay: int, backoff: Option<int>)

  function Tick(e: Ticker): Ticker {
    e.(current := Max(e.current - 1, 0), nextTick := e.nextTick + e.decay)
  }

  function Elapse(e: Ticker, now: int): Ticker
    requires e.decay > 0
    decreases now - e.nextTick
  {
    if e.nextTick <= now then Elapse(Tick(e), now) else e
  }

  function TickerStep(e: Ticker, ev: Event): (Ticker, bool)
    requires e.decay > 0
  {
    var f := Elapse(e, ev.now);
    match ev
    case Backoff(now, duration) => (f.(backoff := Some(now + duration)), false)
    case Wait(_, later, cost) =>
      if f.backoff.Some? && later < f.backoff.value then (f, false)
      else if f.current + cost > f.budget then (f, false)
      else (f.(current := f.current + cost), true)
  }

  lemma {:induction false} ElapseKeepsDecay(e: Ticker, now: int)
    requires e.decay > 0
    ensures Elapse(e, now).decay == e.decay
    decreases now - e.nextTick
  {
    if e.nextTick <= now {
      ElapseKeepsDecay(Tick(e), now);
    }
  }

  function RunTicker(e: Ticker, evs: seq<Event>): (r: (Ticker, seq<bool>))
    requires e.decay > 0
    ensures r.0.decay == e.decay
  {
    if evs == [] then (e, [])
    else
      var (f, oks) := RunTicker(e, evs[..|evs| - 1]);
      var (g, ok) := TickerStep(f, evs[|evs| - 1]);
      ElapseKeepsDecay(f, evs[|evs| - 1].now);
      (g, oks + [ok])
  }

  /** The ticker a lazy state stands for at the moment it was last brought up to date. */
  function AsTicker(s: Counter): Ticker {
    Ticker(s.budget, s.current, s.last + s.decay, s.decay, s.backoff)
  }

  /** One division and one subtraction do what the ticks would have done one by one. */
  lemma {:induction false} DecayIsElapse(s: Counter, now: int)
    requires s.decay > 0 && s.last <= now
    ensures AsTicker(Decay(s, now)) == Elapse(AsTicker(s), now)
    decreases now - s.last
  {
    var q := (now - s.last) / s.decay;
    if s.last + s.decay <= now {
      var t := s.(current := Max(s.current - 1, 0), last := s.last + s.decay);
      DecayIsElapse(t, now);
      DivShift(now - t.last, s.decay);
      DivMonotone(0, now - t.last, s.decay);
      assert q == (now - t.last) / s.decay + 1;
      assert q * s.decay == (q - 1) * s.decay + s.decay;
      assert Decay(t, now) == Decay(s, now);
    } else {
      DivUnique(now - s.last, s.decay, 0, now - s.last);
    }
  }

  lemma {:induction false} ElapseTwice(e: Ticker, first: int, second: int)
    requires e.decay > 0 && first <= second
    ensures Elapse(e, first).decay == e.decay
    ensures Elapse(Elapse(e, first), second) == Elapse(e, second)
    decreases first - e.nextTick
  {
    if e.nextTick <= first {
      ElapseTwice(Tick(e), first, second);
    }
  }

  /** Backoff does not bring the counter up to date, so the eager machine may be ahead of it by some ticks. */
  predicate StandsFor(s: Counter, e: Ticker, now: int)
    requires s.decay > 0
  {
    s.last <= now && Elapse(AsTicker(s), now) == e
  }

  lemma StepRefines(s: Counter, e: Ticker, now: int, ev: Event)
    requires s.decay > 0 && StandsFor(s, e, now) && now <= ev.now && e.decay == s.decay
    ensures s.last <= ev.now
    ensures Step(s, ev).1 == TickerStep(e, ev).1
    ensures Step(s, ev).0.decay == s.decay && StandsFor(Step(s, ev).0, TickerStep(e, ev).0, ev.now)
    ensures ev.Wait? ==> AsTicker(Step(s, ev).0) == TickerStep(e, ev).0
  {
    ElapseTwice(AsTicker(s), now, ev.now);
    if ev.Wait? {
      DecayIsElapse(s, ev.now);
      DecayBounds(s, ev.now);
    } else {
      BackoffCommutes(AsTicker(s), ev.now, Some(ev.now + ev.duration));
    }
  }

  lemma {:induction false} BackoffCommutes(e: Ticker, now: int, backoff: Option<int>)
    requires e.decay > 0
    ensures Elapse(e.(backoff := backoff), now) == Elapse(e, now).(backoff := backoff)
    decreases now - e.nextTick
  {
    if e.nextTick <= now {
      BackoffCommutes(Tick(e), now, backoff);
    }
  }

  function Clock(start: int, evs: seq<Event>): int {
    if evs == [] then start else evs[|evs| - 1].now
  }

  /**
   * Lazy decay refines the eager ticker: on every run, whatever the costs, the same decisions; and
   * right after a Wait the same counter.
   */
  lemma {:induction false} LazyRefinesEager(s: Counter, evs: seq<Event>)
    requires s.decay > 0 && Timed(s.last, evs)
    ensures Run(s, evs).1 == RunTicker(AsTicker(s), evs).1
    ensures StandsFor(Run(s, evs).0, RunTicker(AsTicker(s), evs).0, Clock(s.last, evs))
    ensures evs != [] && evs[|evs| - 1].Wait? ==> Run(s, evs).0.current == RunTicker(AsTicker(s), evs).0.current
  {
    if evs != [] {
      var front := evs[..|evs| - 1];
      LazyRefinesEager(s, front);
      StepRefines(Run(s, front).0, RunTicker(AsTicker(s), front).0, Clock(s.last, front), evs[|evs| - 1]);
    }
  }

  // ----- Rejected calls leave no trace -----

  lemma {:induction false} RunTickerAppend(e: Ticker, a: seq<Event>, b: seq<Event>)
    requires e.decay > 0
    ensures var (f, oks) := RunTicker(e, a);
      RunTicker(e, a + b) == (RunTicker(f, b).0, oks + RunTicker(f, b).1)
  {
    if b == [] {
      assert a + b == a && RunTicker(e, a).1 + [] == RunTicker(e, a).1;
    } else {
      RunTickerAppend(e, a, b[..|b| - 1]);
      assert (a + b)[..|a + b| - 1] == a + b[..|b| - 1];
      var (f, oks) := RunTicker(e, a);
      var (g, more) := RunTicker(f, b[..|b| - 1]);
      var ok := TickerStep(g, b[|b| - 1]).1;
      assert (oks + more) + [ok] == oks + (more + [ok]);
    }
  }

  /** Bringing the ticker forward early changes nothing for events that come later. */
  lemma {:induction false} EarlyElapse(e: Ticker, now: int, evs: seq<Event>)
    requires e.decay > 0 && forall i :: 0 <= i < |evs| ==> now <= evs[i].now
    ensures Elapse(e, now).decay == e.decay
    ensures RunTicker(Elapse(e, now), evs).1 == RunTicker(e, evs).1
    ensures evs != [] ==> RunTicker(Elapse(e, now), evs) == RunTicker(e, evs)
  {
    ElapseKeepsDecay(e, now);
    if evs != [] {
      EarlyElapse(e, now, evs[..|evs| - 1]);
      ElapseTwice(e, now, evs[|evs| - 1].now);
    }
  }

  lemma TimedWithout(start: int, before: seq<Event>, call: Event, after: seq<Event>)
    requires Timed(start, before + [call] + after)
    ensures Timed(start, before + after)
    ensures forall i :: 0 <= i < |after| ==> call.now <= after[i].now
  {
    var all, some := before + [call] + after, before + after;
    assert all[|before|] == call;
    assert forall i :: 0 <= i < |after| ==> after[i] == all[|before| + 1 + i];
    forall i | 0 <= i < |some|
      ensures some[i] == all[if i < |before| then i else i + 1]
    {
    }
    forall i, j | 0 <= i < j < |some|
      ensures some[i].now <= some[j].now
    {
      var p, q := if i < |before| then i else i + 1, if j < |before| then j else j + 1;
      assert all[p].now <= all[q].now;
    }
  }

  lemma TickerWithout(e: Ticker, before: seq<Event>, call: Event, after: seq<Event>)
    requires e.decay > 0 && call.Wait? && forall i :: 0 <= i < |after| ==> call.now <= after[i].now
    requires !TickerStep(RunTicker(e, before).0, call).1
    ensures RunTicker(e, before + [call] + after).1
         == RunTicker(e, before).1 + [false] + RunTicker(RunTicker(e, before).0, after).1
  {
    var (f, oks) := RunTicker(e, before);
    assert (before + [call])[..|before|] == before;
    assert RunTicker(e, before + [call]) == (Elapse(f, call.now), oks + [false]);
    RunTickerAppend(e, before + [call], after);
    EarlyElapse(f, call.now, after);
  }

  lemma TickerDecision(e: Ticker, before: seq<Event>, call: Event, after: seq<Event>)
    requires e.decay > 0
    ensures |RunTicker(e, before + [call] + after).1| > |before|
    ensures RunTicker(e, before + [call] + after).1[|before|] == TickerStep(RunTicker(e, before).0, call).1
  {
    RunTickerLength(e, before);
    RunTickerAppend(e, before + [call], after);
    assert (before + [call])[..|before|] == before;
  }

  function LeaveOut(oks: seq<bool>, i: nat): seq<bool>
    requires i < |oks|
  {
    oks[..i] + oks[i + 1..]
  }

  lemma LeaveOutMiddle(a: seq<bool>, x: bool, b: seq<bool>)
    ensures LeaveOut(a + [x] + b, |a|) == a + b
  {
  }

  lemma TickerLeavesNoTrace(e: Ticker, before: seq<Event>, call: Event, after: seq<Event>)
    requires e.decay > 0 && call.Wait? && forall i :: 0 <= i < |after| ==> call.now <= after[i].now
    ensures |RunTicker(e, before + [call] + after).1| > |before|
    ensures !RunTicker(e, before + [call] + after).1[|before|] ==>
              RunTicker(e, before + after).1 == LeaveOut(RunTicker(e, before + [call] + after).1, |before|)
  {
    var (f, oks) := RunTicker(e, before);
    RunTickerLength(e, before);
    TickerDecision(e, before, call, after);
    if !TickerStep(f, call).1 {
      var later := RunTicker(f, after).1;
      TickerWithout(e, before, call, after);
      assert RunTicker(e, before + [call] + after).1 == oks + [false] + later;
      RunTickerAppend(e, before, after);
      assert RunTicker(e, before + after).1 == oks + later;
      LeaveOutMiddle(oks, false, later);
    }
  }

  /** Leaving a rejected call out of a run changes no other decision. */
  lemma RejectedCallsLeaveNoTrace(s: Counter, before: seq<Event>, call: Event, after: seq<Event>)
    requires s.decay > 0 && Timed(s.last, before + [call] + after) && call.Wait?
    requires !Run(s, before + [call] + after).1[|before|]
    ensures Timed(s.last, before + after)
    ensures Run(s, before + after).1 == LeaveOut(Run(s, before + [call] + after).1, |before|)
  {
    TimedWithout(s.last, before, call, after);
    LazyRefinesEager(s, before + [call] + after);
    LazyRefinesEager(s, before + after);
    TickerLeavesNoTrace(AsTicker(s), before, call, after);
  }

  lemma {:induction false} RunTickerLength(e: Ticker, evs: seq<Event>)
    requires e.decay > 0
    ensures |RunTicker(e, evs).1| == |evs|
  {
    if evs != [] {
      RunTickerLength(e, evs[..|evs| - 1]);
    }
  }

  // ----- How much gets through -----

  /** Total cost admitted at times in the closed interval. */
  function AdmittedBetween(evs: seq<Event>, oks: seq<bool>, from: int, to: int): int
    requires |evs| == |oks|
  {
    if evs == [] then 0
    else
      var last := evs[|evs| - 1];
      AdmittedBetween(evs[..|evs| - 1], oks[..|oks| - 1], from, to)
      + if last.Wait? && oks[|oks| - 1] && from <= last.now <= to then last.cost else 0
  }

  predicate Costly(evs: seq<Event>) {
    forall i :: 0 <= i < |evs| && evs[i].Wait? ==> evs[i].cost >= 0
  }

  /** Ticks of the decay clock up to t. */
  function Ticks(start: int, decay: int, t: int): int
    requires decay > 0
  {
    (t - start) / decay
  }

  lemma DivShiftMany(x: int, d: int, k: nat)
    requires d > 0
    ensures (x + k * d) / d == x / d + k
  {
    assert x + k * d == d * (x / d + k) + x % d;
    DivUnique(x + k * d, d, x / d + k, x % d);
  }

  /**
   * 0 <= current <= budget; last is a tick; and what has been admitted from `from` on is still in the
   * counter or has decayed since.
   */
  predicate Within(s: Counter, start: int, from: int, sum: int)
    requires s.decay > 0
  {
    && 0 <= s.current <= s.budget
    && s.last - start == s.decay * Ticks(start, s.decay, s.last)
    && sum >= 0
    && (sum == 0 || (Ticks(start, s.decay, from) <= Ticks(start, s.decay, s.last)
                     && sum <= s.current + Ticks(start, s.decay, s.last) - Ticks(start, s.decay, from)))
  }

  lemma DecayWithin(s: Counter, start: int, from: int, sum: int, now: int)
    requires s.decay > 0 && s.last <= now && Within(s, start, from, sum)
    ensures Within(Decay(s, now), start, from, sum)
  {
    var q := (now - s.last) / s.decay;
    if q > 0 {
      DivShiftMany(s.last - start, s.decay, q);
      assert s.last + q * s.decay - start == s.decay * (Ticks(start, s.decay, s.last) + q);
    }
  }

  lemma AdmitWithin(s: Counter, start: int, from: int, sum: int, now: int, cost: nat)
    requires s.decay > 0 && s.last <= now < s.last + s.decay && Within(s, start, from, sum)
    requires s.current + cost <= s.budget
    ensures Within(s.(current := s.current + cost), start, from, sum + if from <= now then cost else 0)
  {
    if from <= now {
      DivUnique(now - start, s.decay, Ticks(start, s.decay, s.last), now - s.last);
      DivMonotone(from - start, now - start, s.decay);
    }
  }

  lemma StepWithin(s: Counter, start: int, from: int, sum: int, ev: Event)
    requires s.decay > 0 && s.last <= ev.now && Within(s, start, from, sum) && (ev.Wait? ==> ev.cost >= 0)
    ensures var (t, ok) := Step(s, ev);
      Within(t, start, from, sum + if ev.Wait? && ok && from <= ev.now then ev.cost else 0)
  {
    if ev.Wait? {
      DecayWithin(s, start, from, sum, ev.now);
      DecayBounds(s, ev.now);
      if Step(s, ev).1 {
        AdmitWithin(Decay(s, ev.now), start, from, sum, ev.now, ev.cost);
      }
    }
  }

  lemma AdmittedLast(evs: seq<Event>, oks: seq<bool>, ev: Event, ok: bool, from: int, to: int)
    requires |evs| == |oks| && ev.now <= to
    ensures AdmittedBetween(evs + [ev], oks + [ok], from, to)
         == AdmittedBetween(evs, oks, from, to) + if ev.Wait? && ok && from <= ev.now then ev.cost else 0
  {
    assert (evs + [ev])[..|evs|] == evs && (oks + [ok])[..|oks|] == oks;
  }

  lemma RunLast(s: Counter, evs: seq<Event>, ev: Event)
    requires s.decay > 0 && Timed(s.last, evs + [ev])
    ensures Timed(s.last, evs)
    ensures var (t, oks) := Run(s, evs);
      && t.last <= ev.now
      && Run(s, evs + [ev]) == (Step(t, ev).0, oks + [Step(t, ev).1])
  {
    var all := evs + [ev];
    assert all[..|evs|] == evs && all[|evs|] == ev;
    assert forall i :: 0 <= i < |evs| ==> evs[i] == all[i];
  }

  lemma {:induction false} RunWithin(budget: nat, decay: int, start: int, evs: seq<Event>, from: int, to: int)
    requires decay > 0 && Timed(start, evs) && Costly(evs)
    requires forall i :: 0 <= i < |evs| ==> evs[i].now <= to
    ensures var (s, oks) := Run(Fresh(budget, decay, start), evs);
      && s.budget == budget
      && Within(s, start, from, AdmittedBetween(evs, oks, from, to))
  {
    if evs == [] {
      DivUnique(0, decay, 0, 0);
    } else {
      var front, ev := evs[..|evs| - 1], evs[|evs| - 1];
      assert evs == front + [ev];
      RunWithin(budget, decay, start, front, from, to);
      RunLast(Fresh(budget, decay, start), front, ev);
      var (s, oks) := Run(Fresh(budget, decay, start), front);
      StepWithin(s, start, from, AdmittedBetween(front, oks, from, to), ev);
      AdmittedLast(front, oks, ev, Step(s, ev).1, from, to);
    }
  }

  /** The counter always lies between zero and the budget. */
  lemma CounterBounds(budget: nat, decay: int, start: int, evs: seq<Event>)
    requires decay > 0 && Timed(start, evs) && Costly(evs)
    ensures 0 <= Run(Fresh(budget, decay, start), evs).0.current <= budget
  {
    RunWithin(budget, decay, start, evs, start, Clock(start, evs));
  }

  lemma TicksBetween(x: int, y: int, d: int)
    requires d > 0 && x <= y
    ensures y / d - x / d <= (y - x) / d + 1
  {
    var p, q := x / d, (y - x) / d;
    assert x < d * p + d && y - x < d * q + d;
    assert d * (p + q + 1) == d * p + d * q + d;
    if y / d > p + q + 1 {
      MulStrict(d, p + q + 1, y / d);
    }
  }

  /** In any closed interval the admitted cost is at most budget + floor(length / decay) + 1. */
  lemma {:induction false} DecayingBound(budget: nat, decay: int, start: int, evs: seq<Event>, from: int, to: int)
    requires decay > 0 && Timed(start, evs) && Costly(evs) && from <= to
    ensures AdmittedBetween(evs, Run(Fresh(budget, decay, start), evs).1, from, to) <= budget + (to - from) / decay + 1
  {
    DivMonotone(0, to - from, decay);
    if evs != [] {
      var front, ev := evs[..|evs| - 1], evs[|evs| - 1];
      var oks := Run(Fresh(budget, decay, start), evs).1;
      assert oks[..|oks| - 1] == Run(Fresh(budget, decay, start), front).1;
      if ev.now > to {
        DecayingBound(budget, decay, start, front, from, to);
      } else {
        RunWithin(budget, decay, start, evs, from, to);
        DivMonotone(Run(Fresh(budget, decay, start), evs).0.last - start, to - start, decay);
        TicksBetween(from - start, to - start, decay);
      }
    }
  }

  /** The whole budget just before the first tick, and one more right on it. */
  function AroundTick(budget: nat, decay: int): seq<Event> {
    [Wait(decay - 1, decay - 1, budget), Wait(decay, decay, 1)]
  }

  lemma BeforeTick(budget: nat, decay: int)
    requires decay > 0
    ensures Step(Fresh(budget, decay, 0), Wait(decay - 1, decay - 1, budget)) == (Counter(budget, budget, 0, decay, None), true)
  {
    DivUnique(decay - 1, decay, 0, decay - 1);
  }

  lemma OnTick(budget: nat, decay: int)
    requires budget > 0 && decay > 0
    ensures Step(Counter(budget, budget, 0, decay, None), Wait(decay, decay, 1)).1
  {
    DivUnique(decay, decay, 1, 0);
  }

  lemma RunOne(s: Counter, a: Event)
    requires s.decay > 0 && s.last <= a.now && Timed(s.last, [a])
    ensures Run(s, [a]) == (Step(s, a).0, [Step(s, a).1])
  {
    assert [] + [a] == [a] && [] + [Step(s, a).1] == [Step(s, a).1];
    assert Run(s, []) == (s, []);
    RunLast(s, [], a);
  }

  lemma RunTwo(s: Counter, a: Event, b: Event)
    requires s.decay > 0 && s.last <= a.now && Timed(s.last, [a, b])
    ensures Step(s, a).0.decay > 0 && Step(s, a).0.last <= b.now
    ensures Run(s, [a, b]).1 == [Step(s, a).1, Step(Step(s, a).0, b).1]
  {
    assert [a] + [b] == [a, b];
    RunLast(s, [a], b);
    RunOne(s, a);
  }

  lemma AroundTickAdmitted(budget: nat, decay: int)
    requires budget > 0 && decay > 0
    ensures Timed(0, AroundTick(budget, decay))
    ensures Run(Fresh(budget, decay, 0), AroundTick(budget, decay)).1 == [true, true]
  {
    BeforeTick(budget, decay);
    OnTick(budget, decay);
    var evs := AroundTick(budget, decay);
    assert |evs| == 2 && 0 <= evs[0].now;
    RunTwo(Fresh(budget, decay, 0), evs[0], evs[1]);
  }

  /** The bound is met: budget + floor(1 / decay) + 1 within one tick of time. */
  lemma DecayingBoundIsMet(budget: nat, decay: int)
    requires budget > 0 && decay > 1
    ensures Timed(0, AroundTick(budget, decay))
    ensures AdmittedBetween(AroundTick(budget, decay), Run(Fresh(budget, decay, 0), AroundTick(budget, decay)).1, decay - 1, decay)
         == budget + 1 / decay + 1
  {
    var evs := AroundTick(budget, decay);
    AroundTickAdmitted(budget, decay);
    DivUnique(1, decay, 0, 1);
    assert [] + [evs[0]] == [evs[0]] && [evs[0]] + [evs[1]] == evs;
    assert [] + [true] == [true] && [true] + [true] == [true, true];
    AdmittedLast([], [], evs[0], true, decay - 1, decay);
    AdmittedLast([evs[0]], [true], evs[1], true, decay - 1, decay);
  }

  // ----- Backing off -----

  lemma ElapseKeepsBackoff(e: Ticker, now: int)
    requires e.decay > 0
    ensures Elapse(e, now).backoff == e.backoff
  {
    BackoffCommutes(e, now, e.backoff);
    assert e.(backoff := e.backoff) == e;
  }

  lemma {:induction false} TickerBackoffStays(e: Ticker, between: seq<Event>)
    requires e.decay > 0 && forall i :: 0 <= i < |between| ==> !between[i].Backoff?
    ensures RunTicker(e, between).0.backoff == e.backoff
  {
    if between != [] {
      TickerBackoffStays(e, between[..|between| - 1]);
      ElapseKeepsBackoff(RunTicker(e, between[..|between| - 1]).0, between[|between| - 1].now);
    }
  }

  lemma TickerLast(e: Ticker, evs: seq<Event>, ev: Event)
    requires e.decay > 0
    ensures var (f, oks) := RunTicker(e, evs);
      RunTicker(e, evs + [ev]) == (TickerStep(f, ev).0, oks + [TickerStep(f, ev).1])
  {
    assert (evs + [ev])[..|evs|] == evs;
  }

  lemma PausedTickerRejects(e: Ticker, call: Event)
    requires e.decay > 0 && call.Wait? && e.backoff.Some? && call.later < e.backoff.value
    ensures !TickerStep(e, call).1
  {
    ElapseKeepsBackoff(e, call.now);
  }

  lemma TickerBackoffHolds(e: Ticker, before: seq<Event>, pause: Event, between: seq<Event>)
    requires e.decay > 0 && pause.Backoff? && forall i :: 0 <= i < |between| ==> !between[i].Backoff?
    ensures RunTicker(e, before + [pause] + between).0.backoff == Some(pause.now + pause.duration)
  {
    TickerLast(e, before, pause);
    var g := RunTicker(e, before + [pause]).0;
    RunTickerAppend(e, before + [pause], between);
    TickerBackoffStays(g, between);
  }

  lemma LastDecision(s: Counter, evs: seq<Event>, call: Event)
    requires s.decay > 0 && Timed(s.last, evs + [call])
    ensures Run(s, evs + [call]).1[|evs|] == TickerStep(RunTicker(AsTicker(s), evs).0, call).1
  {
    LazyRefinesEager(s, evs + [call]);
    TickerLast(AsTicker(s), evs, call);
    RunTickerLength(AsTicker(s), evs);
  }

  /** After a Backoff and until its deadline or the next Backoff, every call is rejected. */
  lemma BackoffHolds(s: Counter, before: seq<Event>, pause: Event, between: seq<Event>, call: Event)
    requires s.decay > 0 && Timed(s.last, before + [pause] + between + [call])
    requires pause.Backoff? && call.Wait? && forall i :: 0 <= i < |between| ==> !between[i].Backoff?
    requires call.later < pause.now + pause.duration
    ensures !Run(s, before + [pause] + between + [call]).1[|before| + 1 + |between|]
  {
    var earlier := before + [pause] + between;
    TickerBackoffHolds(AsTicker(s), before, pause, between);
    PausedTickerRejects(RunTicker(AsTicker(s), earlier).0, call);
    LastDecision(s, earlier, call);
  }
}
