/** WeightedLimiter: a weight budget per refill window, corrected by what the venue reports as used. */
module WeightedLimiting {
  import opened Common
  import opened Windows

  datatype Weighted = Weighted(budget: int, used: int, refill: int, lastFill: int, backoff: Option<int>)

  /** Wait reads the clock twice: for the refill, and again for the backoff test. */
  datatype Event =
    | Wait(now: int, later: int, weight: int)
    | UpdateUsed(now: int, used: int)
    | Backoff(now: int, duration: int)

  function Replenish(s: Weighted, now: int): Weighted {
    if now - s.lastFill >= s.refill then s.(used := 0, lastFill := now) else s
  }

  function Step(s: Weighted, ev: Event): (Weighted, bool) {
    match ev
    case UpdateUsed(_, used) => (s.(used := used), false)
    case Backoff(now, duration) => (s.(backoff := Some(now + duration)), false)
    case Wait(now, later, weight) =>
      var t := Replenish(s, now);
      if t.backoff.Some? && later < t.backoff.value then (t, false)
      else if t.used + weight > t.budget then (t, false)
      else (t.(used := t.used + weight), true)
  }

  class WeightedLimiter {
    var budget: int
    var used: int
    var refill: int
    var lastFill: int
    var backoff: Option<int>

    function State(): Weighted
      reads this
    {
      Weighted(budget, used, refill, lastFill, backoff)
    }

    constructor (budget: int, refill: int, now: int)
      ensures State() == Fresh(budget, refill, now)
    {
      this.budget, used, this.refill, lastFill, backoff := budget, 0, refill, now, None;
    }

    method ReplenishLocked(now: int)
      modifies this
      ensures State() == Replenish(old(State()), now)
    {
      if now - lastFill >= refill {
        used := 0;
        lastFill := now;
      }
    }

    /** true is the nil error. */
    method Wait(now: int, later: int, weight: int) returns (ok: bool)
      modifies this
      ensures (State(), ok) == Step(old(State()), Event.Wait(now, later, weight))
    {
      ReplenishLocked(now);
      if backoff.Some? && later < backoff.value {
        return false;
      }
      if used + weight > budget {
        return false;
      }
      used := used + weight;
      return true;
    }

    method UpdateUsed(now: int, reported: int)
      modifies this
      ensures State() == Step(old(State()), Event.UpdateUsed(now, reported)).0
    {
      used := reported;
    }

    method Backoff(now: int, duration: int)
      modifies this
      ensures State() == Step(old(State()), Event.Backoff(now, duration)).0
    {
      backoff := Some(now + duration);
    }
  }

  // ----- Runs -----

  function Fresh(budget: int, refill: int, now: int): Weighted {
    Weighted(budget, 0, refill, now, None)
  }

  datatype Trace = Trace(s: Weighted, log: seq<Admit>)

  function StepTrace(t: Trace, ev: Event): Trace {
    var (s, ok) := Step(t.s, ev);
    Trace(s, if ok then t.log + [Admit(ev.now, ev.weight, s.lastFill)] else t.log)
  }

  function Run(s: Weighted, evs: seq<Event>): Trace {
    if evs == [] then Trace(s, []) else StepTrace(Run(s, evs[..|evs| - 1]), evs[|evs| - 1])
  }

  predicate Timed(start: int, evs: seq<Event>) {
    && (forall i :: 0 <= i < |evs| ==> start <= evs[i].now && (evs[i].Wait? ==> evs[i].now <= evs[i].later))
    && (forall i, j :: 0 <= i < j < |evs| ==> evs[i].now <= evs[j].now)
  }

  /** The weight admitted since the last refill. */
  function Admitted(t: Trace): int {
    SumWindow(t.log, t.s.lastFill)
  }

  /** No report is below what this limiter itself has admitted since the last refill. */
  predicate Honest(s: Weighted, evs: seq<Event>) {
    forall i :: 0 <= i < |evs| && evs[i].UpdateUsed? ==> evs[i].used >= Admitted(Run(s, evs[..i]))
  }

  predicate NonNegative(evs: seq<Event>) {
    forall i :: 0 <= i < |evs| && evs[i].Wait? ==> evs[i].weight >= 0
  }

  function Clock(start: int, evs: seq<Event>): int {
    if evs == [] then start else evs[|evs| - 1].now
  }

  /** What holds of the log at time `now`; `w` is any window start. */
  predicate Invariant(t: Trace, now: int, w: int) {
    && OpenWindow(t.log, t.s.refill, t.s.lastFill, now)
    && Admitted(t) <= t.s.used
    && SumWindow(t.log, w) <= Max(t.s.budget, 0)
  }

  /** An admitted weight fits what is left of the budget in the open window. */
  lemma AdmitInvariant(t: Trace, now: int, weight: nat, w: int)
    requires Invariant(t, now, w) && now < t.s.lastFill + t.s.refill && t.s.used + weight <= t.s.budget
    ensures Invariant(Trace(t.s.(used := t.s.used + weight), t.log + [Admit(now, weight, t.s.lastFill)]), now, w)
  {
    var a := Admit(now, weight, t.s.lastFill);
    WindowAdmits(t.log, t.s.refill, t.s.lastFill, now, weight);
    AppendWindow(t.log, a, t.s.lastFill);
    AppendWindow(t.log, a, w);
  }

  lemma ReplenishInvariant(t: Trace, now: int, later: int, w: int)
    requires Invariant(t, now, w) && now <= later
    ensures Invariant(t.(s := Replenish(t.s, later)), later, w)
  {
    if later - t.s.lastFill >= t.s.refill {
      WindowRestarts(t.log, t.s.refill, t.s.lastFill, now, later);
    }
  }

  predicate SameConfig(a: Weighted, b: Weighted) {
    a.budget == b.budget && a.refill == b.refill
  }

  lemma WaitInvariant(t: Trace, now: int, ev: Event, w: int)
    requires Invariant(t, now, w) && now <= ev.now && ev.Wait? && ev.weight >= 0
    ensures Invariant(StepTrace(t, ev), ev.now, w) && SameConfig(StepTrace(t, ev).s, t.s)
  {
    var t' := t.(s := Replenish(t.s, ev.now));
    ReplenishInvariant(t, now, ev.now, w);
    if Step(t.s, ev).1 {
      AdmitInvariant(t', ev.now, ev.weight, w);
      assert StepTrace(t, ev) == Trace(t'.s.(used := t'.s.used + ev.weight), t'.log + [Admit(ev.now, ev.weight, t'.s.lastFill)]);
    } else {
      assert StepTrace(t, ev) == t';
    }
  }

  lemma StepInvariant(t: Trace, now: int, ev: Event, w: int)
    requires Invariant(t, now, w) && now <= ev.now
    requires (ev.UpdateUsed? ==> ev.used >= Admitted(t)) && (ev.Wait? ==> ev.weight >= 0)
    ensures Invariant(StepTrace(t, ev), ev.now, w) && SameConfig(StepTrace(t, ev).s, t.s)
  {
    if ev.Wait? {
      WaitInvariant(t, now, ev, w);
    } else {
      assert Invariant(t, ev.now, w);
    }
  }

  lemma RunLast(s: Weighted, evs: seq<Event>, ev: Event)
    ensures Run(s, evs + [ev]) == StepTrace(Run(s, evs), ev)
  {
    assert (evs + [ev])[..|evs|] == evs;
  }

  lemma HonestFront(s: Weighted, front: seq<Event>, last: Event)
    requires Honest(s, front + [last])
    ensures Honest(s, front) && (last.UpdateUsed? ==> last.used >= Admitted(Run(s, front)))
  {
    var evs := front + [last];
    assert evs[..|front|] == front && evs[|front|] == last;
    forall i | 0 <= i < |front| && front[i].UpdateUsed?
      ensures front[i].used >= Admitted(Run(s, front[..i]))
    {
      assert evs[..i] == front[..i] && evs[i] == front[i];
    }
  }

  lemma TimedFront(start: int, front: seq<Event>, last: Event)
    requires Timed(start, front + [last]) && NonNegative(front + [last])
    ensures Timed(start, front) && NonNegative(front) && Clock(start, front) <= last.now
    ensures last.Wait? ==> last.weight >= 0
  {
    var evs := front + [last];
    assert forall i :: 0 <= i < |front| ==> evs[i] == front[i];
    assert evs[|front|] == last;
  }

  lemma {:induction false} RunInvariant(s: Weighted, evs: seq<Event>, w: int)
    requires s.refill > 0 && s.used == 0 && Timed(s.lastFill, evs) && NonNegative(evs) && Honest(s, evs)
    ensures Invariant(Run(s, evs), Clock(s.lastFill, evs), w) && SameConfig(Run(s, evs).s, s)
  {
    if evs != [] {
      var front, last := evs[..|evs| - 1], evs[|evs| - 1];
      assert evs == front + [last];
      TimedFront(s.lastFill, front, last);
      HonestFront(s, front, last);
      RunInvariant(s, front, w);
      StepInvariant(Run(s, front), Clock(s.lastFill, front), last, w);
      RunLast(s, front, last);
    }
  }

  lemma RunWithinBudget(budget: int, refill: int, start: int, evs: seq<Event>)
    requires refill > 0 && Timed(start, evs) && NonNegative(evs) && Honest(Fresh(budget, refill, start), evs)
    ensures var log := Run(Fresh(budget, refill, start), evs).log;
      Spaced(log, refill) && InTimeOrder(log) && WithinBudget(log, Max(budget, 0))
  {
    var log := Run(Fresh(budget, refill, start), evs).log;
    RunInvariant(Fresh(budget, refill, start), evs, start);
    forall w
      ensures SumWindow(log, w) <= Max(budget, 0)
    {
      RunInvariant(Fresh(budget, refill, start), evs, w);
    }
  }

  /**
   * With honest reports, in every interleaving of Wait, UpdateUsed and Backoff: each refill window
   * admits at most the budget, and any interval at most budget * (ceil(span / refill) + 1).
   */
  lemma BudgetKept(budget: int, refill: int, start: int, evs: seq<Event>, window: int, from: int, span: nat)
    requires refill > 0 && span > 0 && Timed(start, evs) && NonNegative(evs) && Honest(Fresh(budget, refill, start), evs)
    ensures var log := Run(Fresh(budget, refill, start), evs).log;
      && SumWindow(log, window) <= Max(budget, 0)
      && SumBetween(log, from, from + span) <= Max(budget, 0) * MostWindows(span, refill)
      && SumBetween(log, from, from + span) <= Max(budget, 0) * (CeilDiv(span, refill) + 1)
  {
    RunWithinBudget(budget, refill, start, evs);
    var log, cap := Run(Fresh(budget, refill, start), evs).log, Max(budget, 0);
    IntervalBound(log, refill, cap, from, span);
    MostWindowsRounded(span, refill);
    MulMonotone(cap, MostWindows(span, refill), CeilDiv(span, refill) + 1);
  }

  function AdmittedIn(budget: int, refill: int, start: int, evs: seq<Event>, from: int, span: nat): int {
    SumBetween(Run(Fresh(budget, refill, start), evs).log, from, from + span)
  }

  // ----- The bound is met, so the budget is not a sliding one -----

  /** One call for the whole budget at each packed time. */
  function Packed(budget: int, refill: int, start: int, n: nat): seq<Event> {
    seq(n, k requires 0 <= k < n => var now := PackedTime(start, refill, k); Wait(now, now, budget))
  }

  lemma PackedIsHonest(budget: nat, refill: int, start: int, n: nat)
    requires refill > 0
    ensures var evs := Packed(budget, refill, start, n);
      Timed(start, evs) && NonNegative(evs) && Honest(Fresh(budget, refill, start), evs)
  {
    var evs := Packed(budget, refill, start, n);
    forall i, j | 0 <= i < j < |evs| ensures evs[i].now <= evs[j].now {
      PackedTimesRise(start, refill, i, j);
    }
    forall i | 0 <= i < |evs| ensures start <= evs[i].now {
      PackedTimesRise(start, refill, i, i + 1);
    }
  }

  /** The limiter with its budget spent in the window that starts at `window`. */
  function Spent(budget: int, refill: int, window: int): Weighted {
    Weighted(budget, budget, refill, window, None)
  }

  lemma RestartSpends(t: Trace, budget: nat, refill: int, window: int, now: int, from: int, to: int)
    requires refill > 0 && t.s == Spent(budget, refill, window) && now == window + refill && from <= now < to
    ensures var t' := StepTrace(t, Wait(now, now, budget));
      t'.s == Spent(budget, refill, now) && SumBetween(t'.log, from, to) == SumBetween(t.log, from, to) + budget
  {
    AppendBetween(t.log, Admit(now, budget, now), from, to);
  }

  lemma FirstSpends(budget: nat, refill: int, start: int, from: int, to: int)
    requires refill > 0 && from == start + refill - 1 < to
    ensures var t := StepTrace(Trace(Fresh(budget, refill, start), []), Wait(from, from, budget));
      t.s == Spent(budget, refill, start) && SumBetween(t.log, from, to) == budget
  {
    AppendBetween([], Admit(from, budget, start), from, to);
  }

  /** After n packed calls: the last window is spent, and n times the budget got through from the first call on. */
  predicate AllPackedAdmitted(t: Trace, budget: nat, refill: int, start: int, n: nat, to: int) {
    && t.s == Spent(budget, refill, start + refill * (n - 1))
    && SumBetween(t.log, start + refill - 1, to) == budget * n
  }

  lemma PackedNext(budget: int, refill: int, start: int, n: nat)
    ensures var now := PackedTime(start, refill, n);
      Packed(budget, refill, start, n + 1) == Packed(budget, refill, start, n) + [Wait(now, now, budget)]
  {
  }

  lemma FirstPackedAdmitted(budget: nat, refill: int, start: int, to: int)
    requires refill > 0 && start + refill - 1 < to
    ensures AllPackedAdmitted(Run(Fresh(budget, refill, start), Packed(budget, refill, start, 1)), budget, refill, start, 1, to)
  {
    var s, now := Fresh(budget, refill, start), start + refill - 1;
    FirstSpends(budget, refill, start, now, to);
    RunLast(s, [], Wait(now, now, budget));
    assert [] + [Wait(now, now, budget)] == Packed(budget, refill, start, 1);
    assert Run(s, []) == Trace(s, []);
  }

  lemma NextPackedAdmitted(budget: nat, refill: int, start: int, n: nat, to: int)
    requires refill > 0 && n > 0 && start + refill - 1 <= PackedTime(start, refill, n) < to
    requires AllPackedAdmitted(Run(Fresh(budget, refill, start), Packed(budget, refill, start, n)), budget, refill, start, n, to)
    ensures AllPackedAdmitted(Run(Fresh(budget, refill, start), Packed(budget, refill, start, n + 1)), budget, refill, start, n + 1, to)
  {
    var s, evs, now := Fresh(budget, refill, start), Packed(budget, refill, start, n), PackedTime(start, refill, n);
    NextMultiple(refill, n - 1);
    NextMultiple(budget, n);
    RestartSpends(Run(s, evs), budget, refill, start + refill * (n - 1), now, start + refill - 1, to);
    PackedNext(budget, refill, start, n);
    RunLast(s, evs, Wait(now, now, budget));
  }

  lemma {:induction false} PackedAdmitted(budget: nat, refill: int, start: int, n: nat, span: nat)
    requires refill > 0 && span > 0 && 0 < n <= MostWindows(span, refill)
    ensures AllPackedAdmitted(Run(Fresh(budget, refill, start), Packed(budget, refill, start, n)), budget, refill, start, n,
                              start + refill - 1 + span)
  {
    if n == 1 {
      FirstPackedAdmitted(budget, refill, start, start + refill - 1 + span);
    } else {
      PackedAdmitted(budget, refill, start, n - 1, span);
      PackedInSpan(start, refill, span, n - 1);
      NextPackedAdmitted(budget, refill, start, n - 1, start + refill - 1 + span);
    }
  }

  /** A run without any report that admits in one interval exactly what BudgetKept allows, for every span. */
  lemma BudgetBoundIsMet(budget: nat, refill: int, start: int, span: nat)
    requires refill > 0 && span > 0
    ensures var evs := Packed(budget, refill, start, MostWindows(span, refill));
      && Timed(start, evs) && NonNegative(evs) && Honest(Fresh(budget, refill, start), evs)
      && AdmittedIn(budget, refill, start, evs, start + refill - 1, span) == budget * MostWindows(span, refill)
  {
    PackedIsHonest(budget, refill, start, MostWindows(span, refill));
    PackedAdmitted(budget, refill, start, MostWindows(span, refill), span);
  }

  /** Every interval as long as the refill admits at most the budget. */
  ghost predicate KeepsNominalBudget(budget: int, refill: nat, start: int) {
    forall evs: seq<Event>, from: int |
      Timed(start, evs) && NonNegative(evs) && Honest(Fresh(budget, refill, start), evs) ::
      AdmittedIn(budget, refill, start, evs, from, refill) <= Max(budget, 0)
  }

  /** Two calls for the whole budget in one interval of a refill's length, without any report. */
  lemma TwiceTheBudget(budget: nat, refill: nat, start: int)
    requires refill > 1
    ensures var evs := Packed(budget, refill, start, 2);
      && Timed(start, evs) && NonNegative(evs) && Honest(Fresh(budget, refill, start), evs)
      && AdmittedIn(budget, refill, start, evs, start + refill - 1, refill) == 2 * budget
  {
    TwoWindows(refill);
    BudgetBoundIsMet(budget, refill, start, refill);
  }

  lemma DegenerateBudgetKept(budget: int, refill: nat, start: int, evs: seq<Event>, from: int)
    requires refill > 0 && (budget <= 0 || refill == 1)
    requires Timed(start, evs) && NonNegative(evs) && Honest(Fresh(budget, refill, start), evs)
    ensures AdmittedIn(budget, refill, start, evs, from, refill) <= Max(budget, 0)
  {
    BudgetKept(budget, refill, start, evs, start, from, refill);
  }

  /**
   * Even if no report is ever too low, the budget holds per sliding refill length only in the degenerate
   * cases; otherwise twice the budget can pass.
   */
  lemma NominalBudgetExactly(budget: int, refill: nat, start: int)
    requires refill > 0
    ensures KeepsNominalBudget(budget, refill, start) <==> budget <= 0 || refill == 1
  {
    if budget <= 0 || refill == 1 {
      forall evs: seq<Event>, from: int |
        Timed(start, evs) && NonNegative(evs) && Honest(Fresh(budget, refill, start), evs)
        ensures AdmittedIn(budget, refill, start, evs, from, refill) <= Max(budget, 0)
      {
        DegenerateBudgetKept(budget, refill, start, evs, from);
      }
    } else {
      TwiceTheBudget(budget, refill, start);
    }
  }

  // ----- What a report can do -----

  /** The calls after a report: later and later, none with a negative weight, further reports not too low. */
  predicate Continues(s: Weighted, evs: seq<Event>, now: int, more: seq<Event>) {
    && Timed(now, more) && NonNegative(more)
    && forall i :: 0 <= i < |more| && more[i].UpdateUsed? ==> more[i].used >= Admitted(Run(s, evs + more[..i]))
  }

  /** Whatever comes after the report, the window that was open before it never admits more than the budget. */
  ghost predicate WindowStaysSafe(s: Weighted, evs: seq<Event>, report: Event) {
    forall more: seq<Event> | Continues(s, evs + [report], report.now, more) ::
      SumWindow(Run(s, evs + [report] + more).log, Run(s, evs).s.lastFill) <= Max(s.budget, 0)
  }

  /** What keeps the window `w` from admitting more than the budget. */
  predicate Guarded(t: Trace, now: int, w: int) {
    && t.s.refill > 0 && w <= t.s.lastFill
    && SumWindow(t.log, w) <= Max(t.s.budget, 0)
    && (t.s.lastFill == w && now < w + t.s.refill ==> Min(SumWindow(t.log, w), t.s.budget) <= t.s.used)
  }

  lemma StepGuarded(t: Trace, now: int, ev: Event, w: int)
    requires Guarded(t, now, w) && now <= ev.now
    requires (ev.UpdateUsed? ==> ev.used >= Admitted(t)) && (ev.Wait? ==> ev.weight >= 0)
    ensures Guarded(StepTrace(t, ev), ev.now, w) && StepTrace(t, ev).s.budget == t.s.budget
  {
    var (s, ok) := Step(t.s, ev);
    if ok {
      AppendWindow(t.log, Admit(ev.now, ev.weight, s.lastFill), w);
    }
  }

  lemma ContinuesFront(s: Weighted, evs: seq<Event>, now: int, front: seq<Event>, last: Event)
    requires Continues(s, evs, now, front + [last])
    ensures Continues(s, evs, now, front) && Clock(now, front) <= last.now
    ensures (last.UpdateUsed? ==> last.used >= Admitted(Run(s, evs + front))) && (last.Wait? ==> last.weight >= 0)
  {
    var more := front + [last];
    assert more[..|front|] == front && more[|front|] == last;
    assert forall i :: 0 <= i < |front| ==> more[i] == front[i];
    forall i | 0 <= i < |front| && front[i].UpdateUsed?
      ensures front[i].used >= Admitted(Run(s, evs + front[..i]))
    {
      assert more[..i] == front[..i] && more[i] == front[i];
    }
  }

  lemma {:induction false} RunGuarded(s: Weighted, evs: seq<Event>, now: int, more: seq<Event>, w: int)
    requires Guarded(Run(s, evs), now, w) && Continues(s, evs, now, more)
    ensures Guarded(Run(s, evs + more), Clock(now, more), w) && Run(s, evs + more).s.budget == Run(s, evs).s.budget
  {
    if more == [] {
      assert evs + more == evs;
    } else {
      var front, last := more[..|more| - 1], more[|more| - 1];
      assert more == front + [last];
      ContinuesFront(s, evs, now, front, last);
      RunGuarded(s, evs, now, front, w);
      StepGuarded(Run(s, evs + front), Clock(now, front), last, w);
      assert evs + more == (evs + front) + [last];
      RunLast(s, evs + front, last);
    }
  }

  /** A single call that overdraws the open window after a report below what was admitted. */
  lemma LowReportOverdraws(t: Trace, report: Event, call: Event)
    requires report.UpdateUsed? && call.Wait? && call.now < t.s.lastFill + t.s.refill
    requires t.s.backoff.Some? ==> t.s.backoff.value <= call.later
    requires call.weight == t.s.budget - report.used
    ensures SumWindow(StepTrace(StepTrace(t, report), call).log, t.s.lastFill)
         == SumWindow(t.log, t.s.lastFill) + t.s.budget - report.used
  {
    AppendWindow(t.log, Admit(call.now, call.weight, t.s.lastFill), t.s.lastFill);
  }

  /** The report leaves the open window safe: it is over, or the report is not below what was admitted in it. */
  predicate SafeReport(t: Trace, now: int, reported: int) {
    t.s.lastFill + t.s.refill <= now || Min(Admitted(t), t.s.budget) <= reported
  }

  lemma SafeReportGuards(t: Trace, now: int, reported: int)
    requires t.s.refill > 0 && Admitted(t) <= Max(t.s.budget, 0) && SafeReport(t, now, reported)
    ensures Guarded(StepTrace(t, UpdateUsed(now, reported)), now, t.s.lastFill)
  {
  }

  lemma SafeReportKeepsWindow(s: Weighted, evs: seq<Event>, now: int, reported: int)
    requires var t := Run(s, evs);
      t.s.refill > 0 && t.s.budget == s.budget && Admitted(t) <= Max(s.budget, 0) && SafeReport(t, now, reported)
    ensures WindowStaysSafe(s, evs, UpdateUsed(now, reported))
  {
    var report, w := UpdateUsed(now, reported), Run(s, evs).s.lastFill;
    RunLast(s, evs, report);
    SafeReportGuards(Run(s, evs), now, reported);
    forall more: seq<Event> | Continues(s, evs + [report], now, more)
      ensures SumWindow(Run(s, evs + [report] + more).log, w) <= Max(s.budget, 0)
    {
      RunGuarded(s, evs + [report], now, more, w);
    }
  }

  lemma OneCallContinues(s: Weighted, evs: seq<Event>, now: int, call: Event)
    requires call.Wait? && now <= call.now <= call.later && call.weight >= 0
    ensures Continues(s, evs, now, [call])
  {
  }

  lemma OverdrawnWindow(s: Weighted, evs: seq<Event>, report: Event, call: Event)
    requires Continues(s, evs + [report], report.now, [call])
    requires SumWindow(StepTrace(StepTrace(Run(s, evs), report), call).log, Run(s, evs).s.lastFill) > Max(s.budget, 0)
    ensures !WindowStaysSafe(s, evs, report)
  {
    RunLast(s, evs, report);
    RunLast(s, evs + [report], call);
  }

  /** The call that fits the low count exactly, made when any backoff is over. */
  function Overdraft(t: Trace, now: int, reported: int): Event {
    Wait(now, if t.s.backoff.Some? then Max(now, t.s.backoff.value) else now, t.s.budget - reported)
  }

  lemma UnsafeReportBreaksWindow(s: Weighted, evs: seq<Event>, now: int, reported: int)
    requires var t := Run(s, evs); t.s.budget == s.budget && Admitted(t) >= 0 && !SafeReport(t, now, reported)
    ensures !WindowStaysSafe(s, evs, UpdateUsed(now, reported))
  {
    var t := Run(s, evs);
    var call := Overdraft(t, now, reported);
    LowReportOverdraws(t, UpdateUsed(now, reported), call);
    OneCallContinues(s, evs + [UpdateUsed(now, reported)], now, call);
    OverdrawnWindow(s, evs, UpdateUsed(now, reported), call);
  }

  /**
   * A report replaces the limiter's own count. In every run whose reports so far were not too low, the
   * open window stays within the budget, whatever follows, exactly if the window is already over or the
   * new report is not below the weight admitted in it (or, for a negative budget, below that budget).
   */
  lemma ReportIsSafeExactly(budget: int, refill: int, start: int, evs: seq<Event>, now: int, reported: int)
    requires refill > 0 && Timed(start, evs) && NonNegative(evs) && Honest(Fresh(budget, refill, start), evs)
    requires Clock(start, evs) <= now
    ensures var s := Fresh(budget, refill, start);
      var t := Run(s, evs);
      WindowStaysSafe(s, evs, UpdateUsed(now, reported))
      <==> t.s.lastFill + refill <= now || Min(Admitted(t), budget) <= reported
  {
    var s := Fresh(budget, refill, start);
    var t := Run(s, evs);
    RunInvariant(s, evs, t.s.lastFill);
    SumWindowNonNegative(t.log, t.s.lastFill);
    if SafeReport(t, now, reported) {
      SafeReportKeepsWindow(s, evs, now, reported);
    } else {
      UnsafeReportBreaksWindow(s, evs, now, reported);
    }
  }

  // ----- Backing off -----

  lemma {:induction false} BackoffStays(s: Weighted, before: seq<Event>, pause: Event, between: seq<Event>)
    requires pause.Backoff? && forall i :: 0 <= i < |between| ==> !between[i].Backoff?
    ensures Run(s, before + [pause] + between).s.backoff == Some(pause.now + pause.duration)
  {
    if between == [] {
      assert before + [pause] + between == before + [pause];
      RunLast(s, before, pause);
    } else {
      var front, last := between[..|between| - 1], between[|between| - 1];
      BackoffStays(s, before, pause, front);
      assert before + [pause] + between == (before + [pause] + front) + [last];
      RunLast(s, before + [pause] + front, last);
    }
  }

  /** After a Backoff and until its deadline or the next Backoff, every call is rejected and nothing is counted. */
  lemma BackoffHolds(s: Weighted, before: seq<Event>, pause: Event, between: seq<Event>, call: Event)
    requires pause.Backoff? && call.Wait? && forall i :: 0 <= i < |between| ==> !between[i].Backoff?
    requires call.later < pause.now + pause.duration
    ensures Run(s, before + [pause] + between + [call]).log == Run(s, before + [pause] + between).log
  {
    BackoffStays(s, before, pause, between);
    RunLast(s, before + [pause] + between, call);
  }
}
