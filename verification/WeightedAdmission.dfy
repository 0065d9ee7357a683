/** Which calls a WeightedLimiter admits, told from the earlier calls and the log. */
module WeightedAdmission {
  import opened Common
  import opened Windows
  import opened WeightedLimiting

  /** The deadline of the latest Backoff. */
  function Deadline(evs: seq<Event>): Option<int> {
    if evs == [] then None
    else
      match evs[|evs| - 1]
      case Backoff(now, duration) => Some(now + duration)
      case _ => Deadline(evs[..|evs| - 1])
  }

  predicate Paused(evs: seq<Event>, later: int) {
    Deadline(evs).Some? && later < Deadline(evs).value
  }

  /** When the refill window was opened that is open after these calls; a paused call opens one too. */
  function Opened(refill: int, start: int, evs: seq<Event>): int {
    if evs == [] then start
    else
      var open, ev := Opened(refill, start, evs[..|evs| - 1]), evs[|evs| - 1];
      if ev.Wait? && ev.now >= open + refill then ev.now else open
  }

  /** By how much the last report in the open window differs from what was logged in it at that moment. */
  function Correction(s: Weighted, evs: seq<Event>): int {
    if evs == [] then 0
    else
      var front, ev := evs[..|evs| - 1], evs[|evs| - 1];
      var open := Opened(s.refill, s.lastFill, front);
      match ev
      case UpdateUsed(_, used) => used - SumWindow(Run(s, front).log, open)
      case Backoff(_, _) => Correction(s, front)
      case Wait(now, _, _) => if now >= open + s.refill then 0 else Correction(s, front)
  }

  lemma OpenedLast(s: Weighted, evs: seq<Event>, ev: Event)
    ensures var open := Opened(s.refill, s.lastFill, evs);
      && Opened(s.refill, s.lastFill, evs + [ev]) == (if ev.Wait? && ev.now >= open + s.refill then ev.now else open)
      && Correction(s, evs + [ev]) == match ev {
           case UpdateUsed(_, used) => used - SumWindow(Run(s, evs).log, open)
           case Backoff(_, _) => Correction(s, evs)
           case Wait(now, _, _) => if now >= open + s.refill then 0 else Correction(s, evs)
         }
    ensures Deadline(evs + [ev]) == if ev.Backoff? then Some(ev.now + ev.duration) else Deadline(evs)
  {
    assert (evs + [ev])[..|evs|] == evs;
  }

  /** The count is what was logged in the open window, corrected by the last report in it. */
  predicate Counts(t: Trace, correction: int) {
    && t.s.refill > 0
    && (forall i :: 0 <= i < |t.log| ==> t.log[i].window <= t.s.lastFill)
    && t.s.used == SumWindow(t.log, t.s.lastFill) + correction
  }

  lemma ReplenishCounts(t: Trace, correction: int, now: int)
    requires Counts(t, correction)
    ensures Counts(t.(s := Replenish(t.s, now)), if now >= t.s.lastFill + t.s.refill then 0 else correction)
  {
    if now >= t.s.lastFill + t.s.refill {
      EmptyWindow(t.log, now);
    }
  }

  lemma AdmitCounts(t: Trace, correction: int, now: int, weight: int)
    requires Counts(t, correction)
    ensures Counts(Trace(t.s.(used := t.s.used + weight), t.log + [Admit(now, weight, t.s.lastFill)]), correction)
  {
    AppendWindow(t.log, Admit(now, weight, t.s.lastFill), t.s.lastFill);
  }

  lemma StepCounts(t: Trace, correction: int, ev: Event)
    requires Counts(t, correction)
    ensures Counts(StepTrace(t, ev), match ev {
        case UpdateUsed(_, used) => used - SumWindow(t.log, t.s.lastFill)
        case Backoff(_, _) => correction
        case Wait(now, _, _) => if now >= t.s.lastFill + t.s.refill then 0 else correction
      })
  {
    if ev.Wait? {
      var t' := t.(s := Replenish(t.s, ev.now));
      var correction' := if ev.now >= t.s.lastFill + t.s.refill then 0 else correction;
      ReplenishCounts(t, correction, ev.now);
      AdmitCounts(t', correction', ev.now, ev.weight);
      assert StepTrace(t, ev) == t'
        || StepTrace(t, ev) == Trace(t'.s.(used := t'.s.used + ev.weight), t'.log + [Admit(ev.now, ev.weight, t'.s.lastFill)]);
    }
  }

  lemma StepConfig(t: Trace, ev: Event)
    ensures SameConfig(StepTrace(t, ev).s, t.s)
    ensures StepTrace(t, ev).s.lastFill == if ev.Wait? && ev.now >= t.s.lastFill + t.s.refill then ev.now else t.s.lastFill
    ensures StepTrace(t, ev).s.backoff == if ev.Backoff? then Some(ev.now + ev.duration) else t.s.backoff
  {
  }

  lemma {:induction false} StateFromCalls(s: Weighted, evs: seq<Event>)
    requires s.backoff == None && s.used == 0 && s.refill > 0
    ensures var t := Run(s, evs);
      && SameConfig(t.s, s) && t.s.lastFill == Opened(s.refill, s.lastFill, evs) && t.s.backoff == Deadline(evs)
      && Counts(t, Correction(s, evs))
  {
    if evs != [] {
      var front, last := evs[..|evs| - 1], evs[|evs| - 1];
      assert evs == front + [last];
      StateFromCalls(s, front);
      StepConfig(Run(s, front), last);
      StepCounts(Run(s, front), Correction(s, front), last);
      RunLast(s, front, last);
      OpenedLast(s, front, last);
    }
  }

  /** The log after a call on a limiter that counts `used` in the window opened at `open`. */
  function LogAfter(log: seq<Admit>, budget: int, refill: int, open: int, used: int, paused: bool, call: Event): seq<Admit>
    requires call.Wait?
  {
    var over := call.now >= open + refill;
    if !paused && (if over then 0 else used) + call.weight <= budget
    then log + [Admit(call.now, call.weight, if over then call.now else open)] else log
  }

  /** The state of a limiter as its calls and log tell it. */
  predicate KnownAs(t: Trace, budget: int, refill: int, open: int, used: int, deadline: Option<int>) {
    t.s == Weighted(budget, used, refill, open, deadline)
  }

  lemma KnownState(budget: int, refill: int, start: int, evs: seq<Event>)
    requires refill > 0
    ensures var s := Fresh(budget, refill, start);
      var open := Opened(refill, start, evs);
      KnownAs(Run(s, evs), budget, refill, open, SumWindow(Run(s, evs).log, open) + Correction(s, evs), Deadline(evs))
  {
    StateFromCalls(Fresh(budget, refill, start), evs);
  }

  /** The log after these calls and the one more, as the earlier calls and their log tell it. */
  predicate DecidedAs(log': seq<Admit>, log: seq<Admit>, s: Weighted, open: int, correction: int, paused: bool, call: Event) {
    call.Wait? && log' == LogAfter(log, s.budget, s.refill, open, SumWindow(log, open) + correction, paused, call)
  }

  lemma StepDecidedAs(t: Trace, s: Weighted, open: int, correction: int, deadline: Option<int>, call: Event)
    requires call.Wait? && KnownAs(t, s.budget, s.refill, open, SumWindow(t.log, open) + correction, deadline)
    ensures DecidedAs(StepTrace(t, call).log, t.log, s, open, correction, deadline.Some? && call.later < deadline.value, call)
  {
  }

  lemma AdmitsWithCorrection(budget: int, refill: int, start: int, evs: seq<Event>, call: Event)
    requires refill > 0 && call.Wait?
    ensures var s := Fresh(budget, refill, start);
      DecidedAs(Run(s, evs + [call]).log, Run(s, evs).log, s, Opened(refill, start, evs), Correction(s, evs),
                Paused(evs, call.later), call)
  {
    var s := Fresh(budget, refill, start);
    KnownState(budget, refill, start, evs);
    StepDecidedAs(Run(s, evs), s, Opened(refill, start, evs), Correction(s, evs), Deadline(evs), call);
    RunLast(s, evs, call);
  }

  predicate NoReports(evs: seq<Event>) {
    forall i :: 0 <= i < |evs| ==> !evs[i].UpdateUsed?
  }

  lemma {:induction false} NoCorrection(s: Weighted, evs: seq<Event>)
    requires NoReports(evs)
    ensures Correction(s, evs) == 0
  {
    if evs != [] {
      NoCorrection(s, evs[..|evs| - 1]);
    }
  }

  lemma {:induction false} CorrectionSince(s: Weighted, before: seq<Event>, report: Event, after: seq<Event>)
    requires s.refill > 0 && report.UpdateUsed? && NoReports(after)
    ensures var was, open := Opened(s.refill, s.lastFill, before), Opened(s.refill, s.lastFill, before + [report] + after);
      was <= open && Correction(s, before + [report] + after)
      == if open == was then report.used - SumWindow(Run(s, before).log, was) else 0
  {
    if after == [] {
      assert before + [report] + after == before + [report];
      OpenedLast(s, before, report);
    } else {
      var front, last := after[..|after| - 1], after[|after| - 1];
      CorrectionSince(s, before, report, front);
      assert before + [report] + after == (before + [report] + front) + [last];
      OpenedLast(s, before + [report] + front, last);
    }
  }

  /**
   * In every run without reports a call is admitted exactly if the latest Backoff is over and its weight,
   * with the weight logged in the open window (none, if it has run out), is at most the budget.
   */
  lemma AdmitsExactly(budget: int, refill: int, start: int, evs: seq<Event>, call: Event)
    requires refill > 0 && call.Wait? && NoReports(evs)
    ensures var s := Fresh(budget, refill, start);
      var log, open := Run(s, evs).log, Opened(refill, start, evs);
      var over := call.now >= open + refill;
      Run(s, evs + [call]).log ==
      if !Paused(evs, call.later) && (if over then 0 else SumWindow(log, open)) + call.weight <= budget
      then log + [Admit(call.now, call.weight, if over then call.now else open)] else log
  {
    AdmitsWithCorrection(budget, refill, start, evs, call);
    NoCorrection(Fresh(budget, refill, start), evs);
  }

  /**
   * After a report, and until the next, the same holds with the report and what was admitted since it in
   * place of the weight logged in the window, as long as that window stays open.
   */
  lemma AdmitsAfterReportExactly(
    budget: int, refill: int, start: int, before: seq<Event>, report: Event, after: seq<Event>, call: Event)
    requires refill > 0 && call.Wait? && report.UpdateUsed? && NoReports(after)
    ensures var s, evs := Fresh(budget, refill, start), before + [report] + after;
      var log, open := Run(s, evs).log, Opened(refill, start, evs);
      var over := call.now >= open + refill;
      var used :=
        if over then 0
        else if open == Opened(refill, start, before) then report.used + SumWindow(log, open) - SumWindow(Run(s, before).log, open)
        else SumWindow(log, open);
      Run(s, evs + [call]).log ==
      if !Paused(evs, call.later) && used + call.weight <= budget
      then log + [Admit(call.now, call.weight, if over then call.now else open)] else log
  {
    AdmitsWithCorrection(budget, refill, start, before + [report] + after, call);
    CorrectionSince(Fresh(budget, refill, start), before, report, after);
  }
}
