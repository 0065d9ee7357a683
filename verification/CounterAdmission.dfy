/**
 * Which calls a CounterLimiter admits, told from the earlier calls and decisions: a call gets through
 * if what was admitted since any earlier call, less the ticks since then, leaves room for it.
 */
module CounterAdmission {
  import opened Common
  import opened Windows
  import opened CounterLimiting

  /** The cost admitted by the calls from index i on. */
  function AdmittedFrom(evs: seq<Event>, oks: seq<bool>, i: nat): int
    requires |evs| == |oks|
  {
    if |evs| <= i then 0
    else
      var last := |evs| - 1;
      AdmittedFrom(evs[..last], oks[..last], i) + if evs[last].Wait? && oks[last] then evs[last].cost else 0
  }

  /** The deadline of the latest Backoff. */
  function Deadline(evs: seq<Event>): Option<int> {
    if evs == [] then None
    else
      match evs[|evs| - 1]
      case Backoff(now, duration) => Some(now + duration)
      case Wait(_, _, _) => Deadline(evs[..|evs| - 1])
  }

  predicate Paused(evs: seq<Event>, later: int) {
    Deadline(evs).Some? && later < Deadline(evs).value
  }

  /** What was admitted from call i on, on a scale that moves up by one at every tick. */
  function Mark(start: int, decay: int, evs: seq<Event>, oks: seq<bool>, i: nat): int
    requires decay > 0 && |evs| == |oks| && i < |evs|
  {
    AdmittedFrom(evs, oks, i) + Ticks(start, decay, evs[i].now)
  }

  /** `level` at tick `tick` is the highest of the marks of the calls so far, or zero. */
  predicate IsPeak(start: int, decay: int, evs: seq<Event>, oks: seq<bool>, level: int, tick: int)
    requires decay > 0 && |evs| == |oks|
  {
    && level >= 0
    && (forall i :: 0 <= i < |evs| && evs[i].Wait? ==> Mark(start, decay, evs, oks, i) <= level + tick)
    && (level == 0 || exists i :: 0 <= i < |evs| && evs[i].Wait? && Mark(start, decay, evs, oks, i) == level + tick)
  }

  lemma PeakDecays(start: int, decay: int, evs: seq<Event>, oks: seq<bool>, level: int, tick: int, ticks: nat)
    requires decay > 0 && |evs| == |oks| && IsPeak(start, decay, evs, oks, level, tick)
    ensures IsPeak(start, decay, evs, oks, Max(level - ticks, 0), tick + ticks)
  {
  }

  lemma MarkLast(start: int, decay: int, evs: seq<Event>, oks: seq<bool>, ev: Event, ok: bool, i: nat)
    requires decay > 0 && |evs| == |oks| && i <= |evs|
    ensures var cost := if ev.Wait? && ok then ev.cost else 0;
      Mark(start, decay, evs + [ev], oks + [ok], i)
      == cost + if i < |evs| then Mark(start, decay, evs, oks, i) else Ticks(start, decay, ev.now)
  {
    assert (evs + [ev])[..|evs|] == evs && (oks + [ok])[..|oks|] == oks;
    if i < |evs| {
      assert (evs + [ev])[i] == evs[i];
    } else {
      assert (evs + [ev])[i] == ev && AdmittedFrom(evs, oks, i) == 0;
      assert AdmittedFrom(evs + [ev], oks + [ok], i) == if ev.Wait? && ok then ev.cost else 0;
    }
  }

  lemma PeakWaits(start: int, decay: int, evs: seq<Event>, oks: seq<bool>, level: int, tick: int, ev: Event, ok: bool)
    requires decay > 0 && |evs| == |oks| && IsPeak(start, decay, evs, oks, level, tick)
    requires ev.Wait? && Ticks(start, decay, ev.now) == tick && (ok ==> ev.cost >= 0)
    ensures IsPeak(start, decay, evs + [ev], oks + [ok], level + if ok then ev.cost else 0, tick)
  {
    var evs', oks', cost := evs + [ev], oks + [ok], if ok then ev.cost else 0;
    forall i | 0 <= i < |evs'| && evs'[i].Wait?
      ensures Mark(start, decay, evs', oks', i) <= level + cost + tick
    {
      MarkLast(start, decay, evs, oks, ev, ok, i);
      assert i < |evs| ==> evs'[i] == evs[i];
    }
    if level > 0 {
      var i :| 0 <= i < |evs| && evs[i].Wait? && Mark(start, decay, evs, oks, i) == level + tick;
      MarkLast(start, decay, evs, oks, ev, ok, i);
      assert evs'[i] == evs[i];
    } else {
      MarkLast(start, decay, evs, oks, ev, ok, |evs|);
      assert evs'[|evs|] == ev;
    }
  }

  lemma PeakPauses(start: int, decay: int, evs: seq<Event>, oks: seq<bool>, level: int, tick: int, ev: Event, ok: bool)
    requires decay > 0 && |evs| == |oks| && IsPeak(start, decay, evs, oks, level, tick) && ev.Backoff?
    ensures IsPeak(start, decay, evs + [ev], oks + [ok], level, tick)
  {
    var evs', oks' := evs + [ev], oks + [ok];
    forall i | 0 <= i < |evs'| && evs'[i].Wait?
      ensures Mark(start, decay, evs', oks', i) <= level + tick
    {
      assert evs'[i] == evs[i];
      MarkLast(start, decay, evs, oks, ev, ok, i);
    }
    if level > 0 {
      var i :| 0 <= i < |evs| && evs[i].Wait? && Mark(start, decay, evs, oks, i) == level + tick;
      MarkLast(start, decay, evs, oks, ev, ok, i);
      assert evs'[i] == evs[i];
    }
  }

  /** The lazy clock stands on a tick of the start's grid. */
  predicate OnGrid(s: Counter, start: int)
    requires s.decay > 0
  {
    s.last - start == s.decay * Ticks(start, s.decay, s.last)
  }

  lemma DecayTicks(s: Counter, start: int, now: int) returns (ticks: nat)
    requires s.decay > 0 && s.last <= now && OnGrid(s, start)
    ensures var t := Decay(s, now);
      && OnGrid(t, start) && (ticks > 0 || t.current == s.current) && (ticks > 0 ==> t.current == Max(s.current - ticks, 0))
      && Ticks(start, s.decay, t.last) == Ticks(start, s.decay, s.last) + ticks
      && Ticks(start, s.decay, now) == Ticks(start, s.decay, t.last)
  {
    DivMonotone(0, now - s.last, s.decay);
    DivUnique(0, s.decay, 0, 0);
    ticks := (now - s.last) / s.decay;
    DivShiftMany(s.last - start, s.decay, ticks);
    var t, k := Decay(s, now), Ticks(start, s.decay, s.last) + ticks;
    assert s.decay * k == s.decay * Ticks(start, s.decay, s.last) + ticks * s.decay;
    DecayBounds(s, now);
    DivUnique(now - start, s.decay, k, now - t.last);
  }

  /** The counter is the peak at its own tick, and its deadline is that of the latest Backoff. */
  predicate Levels(s: Counter, start: int, evs: seq<Event>, oks: seq<bool>)
    requires s.decay > 0 && |evs| == |oks|
  {
    && OnGrid(s, start) && s.backoff == Deadline(evs)
    && IsPeak(start, s.decay, evs, oks, s.current, Ticks(start, s.decay, s.last))
  }

  lemma DeadlineLast(evs: seq<Event>, ev: Event)
    ensures Deadline(evs + [ev]) == if ev.Backoff? then Some(ev.now + ev.duration) else Deadline(evs)
  {
    assert (evs + [ev])[..|evs|] == evs;
  }

  lemma DecayLevels(s: Counter, start: int, evs: seq<Event>, oks: seq<bool>, now: int)
    requires s.decay > 0 && |evs| == |oks| && s.last <= now && Levels(s, start, evs, oks)
    ensures Levels(Decay(s, now), start, evs, oks)
    ensures Ticks(start, s.decay, now) == Ticks(start, s.decay, Decay(s, now).last)
  {
    var ticks := DecayTicks(s, start, now);
    PeakDecays(start, s.decay, evs, oks, s.current, Ticks(start, s.decay, s.last), ticks);
  }

  lemma StepLevels(s: Counter, start: int, evs: seq<Event>, oks: seq<bool>, ev: Event)
    requires s.decay > 0 && |evs| == |oks| && s.last <= ev.now && Levels(s, start, evs, oks)
    requires ev.Wait? ==> ev.cost >= 0
    ensures Levels(Step(s, ev).0, start, evs + [ev], oks + [Step(s, ev).1])
  {
    DeadlineLast(evs, ev);
    var ok := Step(s, ev).1;
    if ev.Wait? {
      DecayLevels(s, start, evs, oks, ev.now);
      var t := Decay(s, ev.now);
      PeakWaits(start, s.decay, evs, oks, t.current, Ticks(start, s.decay, t.last), ev, ok);
    } else {
      PeakPauses(start, s.decay, evs, oks, s.current, Ticks(start, s.decay, s.last), ev, ok);
    }
  }

  lemma CostlyFront(front: seq<Event>, last: Event)
    requires Costly(front + [last])
    ensures Costly(front) && (last.Wait? ==> last.cost >= 0)
  {
    assert (front + [last])[|front|] == last;
    assert forall i :: 0 <= i < |front| ==> (front + [last])[i] == front[i];
  }

  lemma {:induction false} RunLevels(budget: int, decay: int, start: int, evs: seq<Event>)
    requires decay > 0 && Timed(start, evs) && Costly(evs)
    ensures var (s, oks) := Run(Fresh(budget, decay, start), evs);
      s.budget == budget && Levels(s, start, evs, oks)
  {
    var s := Fresh(budget, decay, start);
    if evs == [] {
      DivUnique(0, decay, 0, 0);
    } else {
      var front, last := evs[..|evs| - 1], evs[|evs| - 1];
      assert evs == front + [last];
      RunLast(s, front, last);
      CostlyFront(front, last);
      RunLevels(budget, decay, start, front);
      var (t, oks) := Run(s, front);
      StepLevels(t, start, front, oks, last);
    }
  }

  /** Nothing admitted since an earlier call, less the ticks since then, stands in the way of the cost. */
  predicate HasRoom(start: int, decay: int, evs: seq<Event>, oks: seq<bool>, budget: int, now: int, cost: int)
    requires decay > 0 && |evs| == |oks|
  {
    && cost <= budget
    && forall i :: 0 <= i < |evs| && evs[i].Wait? ==>
         AdmittedFrom(evs, oks, i) - (Ticks(start, decay, now) - Ticks(start, decay, evs[i].now)) + cost <= budget
  }

  lemma RoomIsLevel(start: int, decay: int, evs: seq<Event>, oks: seq<bool>, budget: int, now: int, cost: int, level: int)
    requires decay > 0 && |evs| == |oks| && IsPeak(start, decay, evs, oks, level, Ticks(start, decay, now))
    ensures HasRoom(start, decay, evs, oks, budget, now, cost) <==> level + cost <= budget
  {
    assert forall i :: 0 <= i < |evs| && evs[i].Wait? ==>
        Mark(start, decay, evs, oks, i) == AdmittedFrom(evs, oks, i) + Ticks(start, decay, evs[i].now);
  }

  /**
   * In every timed run a call is admitted exactly if the latest Backoff is over, it fits the budget by
   * itself, and so it does together with what was admitted since any earlier call less the ticks since.
   */
  lemma AdmitsExactly(budget: int, decay: int, start: int, evs: seq<Event>, call: Event)
    requires decay > 0 && Timed(start, evs + [call]) && Costly(evs) && call.Wait?
    ensures Timed(start, evs)
    ensures var oks := Run(Fresh(budget, decay, start), evs).1;
      Run(Fresh(budget, decay, start), evs + [call]).1
      == oks + [!Paused(evs, call.later) && HasRoom(start, decay, evs, oks, budget, call.now, call.cost)]
  {
    RunLast(Fresh(budget, decay, start), evs, call);
    RunLevels(budget, decay, start, evs);
    var (s, oks) := Run(Fresh(budget, decay, start), evs);
    DecayLevels(s, start, evs, oks, call.now);
    RoomIsLevel(start, decay, evs, oks, budget, call.now, call.cost, Decay(s, call.now).current);
  }
}
