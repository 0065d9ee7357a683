/** How much a limiter that counts per window can let through in an arbitrary interval. */
module Windows {

  /** An admitted call: when, how much, and the start of the window it was counted in. */
  datatype Admit = Admit(time: int, cost: int, window: int)

  /** Total admitted in the half-open interval from `from` to `to`. */
  function SumBetween(log: seq<Admit>, from: int, to: int): int {
    if log == [] then 0
    else
      var last := log[|log| - 1];
      SumBetween(log[..|log| - 1], from, to) + if from <= last.time < to then last.cost else 0
  }

  /** Total counted in the window that starts at `window`. */
  function SumWindow(log: seq<Admit>, window: int): int {
    if log == [] then 0
    else
      var last := log[|log| - 1];
      SumWindow(log[..|log| - 1], window) + if last.window == window then last.cost else 0
  }

  /** Window starts are at least one length apart, every call is inside its window, and no cost is negative. */
  predicate Spaced(log: seq<Admit>, length: int) {
    && (forall i :: 0 <= i < |log| ==> log[i].cost >= 0)
    && (forall i :: 0 <= i < |log| ==> log[i].window <= log[i].time < log[i].window + length)
    && (forall i, j :: 0 <= i < j < |log| ==>
        log[i].window == log[j].window || log[i].window + length <= log[j].window)
  }

  ghost predicate WithinBudget(log: seq<Admit>, budget: nat) {
    forall window :: SumWindow(log, window) <= budget
  }

  /** The number of windows that start no later than `latest` and can reach past `from`. */
  function Reaching(from: int, latest: int, length: int): nat
    requires length > 0
  {
    if latest + length <= from then 0 else (latest - from + length - 1) / length + 1
  }

  lemma ReachingMonotone(from: int, a: int, b: int, length: int)
    requires length > 0 && a <= b
    ensures Reaching(from, a, length) <= Reaching(from, b, length)
  {
    if a + length > from {
      DivMonotone(a - from + length - 1, b - from + length - 1, length);
    }
  }

  lemma MulStrict(d: int, a: int, b: int)
    requires d > 0 && a < b
    ensures d * a + d <= d * b
  {
    assert d * (a + 1) <= d * b;
  }

  lemma DivMonotone(x: int, y: int, d: int)
    requires d > 0 && x <= y
    ensures x / d <= y / d
  {
    var p, q := x / d, y / d;
    assert d * p <= x && y < d * q + d;
    if q < p {
      MulStrict(d, q, p);
    }
  }

  lemma DivUnique(x: int, d: int, q: int, r: int)
    requires d > 0 && 0 <= r < d && x == d * q + r
    ensures x / d == q
  {
    var p := x / d;
    assert d * p <= x < d * p + d;
    if p < q {
      MulStrict(d, p, q);
    } else if q < p {
      MulStrict(d, q, p);
    }
  }

  lemma DivShift(x: int, d: int)
    requires d > 0
    ensures (x + d) / d == x / d + 1
  {
    var q, r := x / d, x % d;
    assert x == d * q + r;
    assert d * (q + 1) == d * q + d;
    DivUnique(x + d, d, q + 1, r);
  }

  lemma ReachingNext(from: int, a: int, b: int, length: int)
    requires length > 0 && a + length <= b && b + length > from
    ensures Reaching(from, a, length) + 1 <= Reaching(from, b, length)
  {
    ReachingMonotone(from, a + length, b, length);
    if a + length > from {
      DivShift(a - from + length - 1, length);
    }
  }

  lemma MulMonotone(budget: nat, m: int, n: int)
    requires m <= n
    ensures budget * m <= budget * n
  {
  }

  /** No call before a window starts is counted in it. */
  lemma {:induction false} EmptyWindow(log: seq<Admit>, window: int)
    requires forall i :: 0 <= i < |log| ==> log[i].window != window
    ensures SumWindow(log, window) == 0
  {
    if log != [] {
      EmptyWindow(log[..|log| - 1], window);
    }
  }

  lemma {:induction false} NothingBetween(log: seq<Admit>, from: int, to: int)
    requires forall i :: 0 <= i < |log| ==> !(from <= log[i].time < to)
    ensures SumBetween(log, from, to) == 0
  {
    if log != [] {
      NothingBetween(log[..|log| - 1], from, to);
    }
  }

  lemma FrontWithinBudget(log: seq<Admit>, budget: nat)
    requires log != [] && log[|log| - 1].cost >= 0 && WithinBudget(log, budget)
    ensures WithinBudget(log[..|log| - 1], budget)
  {
    var front := log[..|log| - 1];
    forall window
      ensures SumWindow(front, window) <= budget
    {
      assert SumWindow(log, window) <= budget;
    }
  }

  lemma {:induction false} SumWindowNonNegative(log: seq<Admit>, window: int)
    requires forall i :: 0 <= i < |log| ==> log[i].cost >= 0
    ensures SumWindow(log, window) >= 0
  {
    if log != [] {
      SumWindowNonNegative(log[..|log| - 1], window);
    }
  }

  /** What has been admitted from `from` on, measured against the window of the last call. */
  predicate Measured(sum: int, inLast: int, last: int, from: int, length: int, budget: nat)
    requires length > 0
  {
    var n := Reaching(from, last, length);
    if n == 0 then sum == 0 else sum <= budget * (n - 1) + inLast
  }

  lemma NextWindowMeasured(sum: int, inPrev: int, prev: int, next: int, from: int, length: int, budget: nat)
    requires length > 0 && prev + length <= next && next + length > from && inPrev <= budget
    requires Measured(sum, inPrev, prev, from, length, budget)
    ensures Measured(sum, 0, next, from, length, budget)
  {
    ReachingNext(from, prev, next, length);
    var m, n := Reaching(from, prev, length), Reaching(from, next, length);
    assert m > 0 ==> budget * (m - 1) + budget == budget * m;
    MulMonotone(budget, m, n - 1);
  }

  lemma {:induction false} SumUpToLastWindow(log: seq<Admit>, length: int, budget: nat, from: int, to: int)
    requires length > 0 && log != [] && Spaced(log, length) && WithinBudget(log, budget)
    ensures var last := log[|log| - 1].window;
      Measured(SumBetween(log, from, to), SumWindow(log, last), last, from, length, budget)
  {
    var front, last := log[..|log| - 1], log[|log| - 1];
    if last.window + length <= from {
      NothingBetween(log, from, to);
    } else if front == [] {
      MulMonotone(budget, 0, Reaching(from, last.window, length) - 1);
    } else {
      FrontWithinBudget(log, budget);
      SumUpToLastWindow(front, length, budget, from, to);
      SumWindowNonNegative(front, last.window);
      var prev := front[|front| - 1].window;
      assert log[|front| - 1].window == prev;
      if prev != last.window {
        assert SumWindow(front, prev) <= budget;
        NextWindowMeasured(SumBetween(front, from, to), SumWindow(front, prev), prev, last.window, from, length, budget);
      }
    }
  }

  function CeilDiv(x: int, d: int): int
    requires d > 0
  {
    (x + d - 1) / d
  }

  /** The sharp bound for an interval of `span` ticks. */
  function MostWindows(span: nat, length: int): nat
    requires length > 0 && span > 0
  {
    (span + length - 2) / length + 1
  }

  /** Prefix of the log before a time; calls are in time order. */
  predicate InTimeOrder(log: seq<Admit>) {
    forall i, j :: 0 <= i < j < |log| ==> log[i].time <= log[j].time
  }

  lemma {:induction false} IntervalBound(log: seq<Admit>, length: int, budget: nat, from: int, span: nat)
    requires length > 0 && span > 0 && Spaced(log, length) && WithinBudget(log, budget) && InTimeOrder(log)
    ensures SumBetween(log, from, from + span) <= budget * MostWindows(span, length)
  {
    if log == [] {
      MulMonotone(budget, 0, MostWindows(span, length));
    } else {
      var front, last := log[..|log| - 1], log[|log| - 1];
      FrontWithinBudget(log, budget);
      if last.time >= from + span {
        IntervalBound(front, length, budget, from, span);
      } else {
        SumUpToLastWindow(log, length, budget, from, from + span);
        assert SumWindow(log, last.window) <= budget;
        ReachingMonotone(from, last.window, from + span - 1, length);
        var n := Reaching(from, last.window, length);
        MulMonotone(budget, n, MostWindows(span, length));
        assert n > 0 ==> budget * (n - 1) + budget == budget * n;
      }
    }
  }

  /** The sharp bound is at most one window more than the span holds. */
  lemma MostWindowsRounded(span: nat, length: int)
    requires length > 0 && span > 0
    ensures MostWindows(span, length) <= CeilDiv(span, length) + 1
  {
    DivMonotone(span + length - 2, span + length - 1, length);
  }

  lemma TwoWindows(length: nat)
    requires length > 1
    ensures MostWindows(length, length) == 2
  {
    DivUnique(length + length - 2, length, 1, length - 2);
  }

  lemma NextMultiple(d: int, k: nat)
    ensures d * k + d == d * (k + 1)
  {
  }

  /** Calls packed as closely as a lazy window allows: the last tick of the first window, then each restart. */
  function PackedTime(start: int, length: int, k: nat): int {
    if k == 0 then start + length - 1 else start + length * k
  }

  lemma PackedTimesRise(start: int, length: int, j: nat, k: nat)
    requires length > 0 && j < k
    ensures start <= PackedTime(start, length, j) < PackedTime(start, length, k)
  {
    MulMonotone(length, 1, k);
    if j > 0 {
      MulStrict(length, j, k);
      MulMonotone(length, 0, j);
    }
  }

  lemma DivTimes(x: int, d: int)
    requires d > 0
    ensures d * (x / d) <= x
  {
  }

  /** As many packed windows as the sharp bound allows for begin within the span. */
  lemma PackedInSpan(start: int, length: int, span: nat, k: nat)
    requires length > 0 && span > 0 && k < MostWindows(span, length)
    ensures start + length - 1 <= PackedTime(start, length, k) < start + length - 1 + span
  {
    if k > 0 {
      PackedTimesRise(start, length, 0, k);
      MulMonotone(length, k, (span + length - 2) / length);
      DivTimes(span + length - 2, length);
    }
  }

  // ----- What a limiter with one open window keeps -----

  /** A log at time `now` whose open window began at `start`. */
  predicate OpenWindow(log: seq<Admit>, length: int, start: int, now: int) {
    && length > 0 && start <= now
    && Spaced(log, length) && InTimeOrder(log)
    && (forall i :: 0 <= i < |log| ==> log[i].time <= now)
    && (forall i :: 0 <= i < |log| ==> log[i].window == start || log[i].window + length <= start)
  }

  lemma AppendWindow(log: seq<Admit>, a: Admit, window: int)
    ensures SumWindow(log + [a], window) == SumWindow(log, window) + if a.window == window then a.cost else 0
  {
    assert (log + [a])[..|log|] == log;
  }

  lemma AppendBetween(log: seq<Admit>, a: Admit, from: int, to: int)
    ensures SumBetween(log + [a], from, to) == SumBetween(log, from, to) + if from <= a.time < to then a.cost else 0
  {
    assert (log + [a])[..|log|] == log;
  }

  lemma WindowRestarts(log: seq<Admit>, length: int, start: int, now: int, restart: int)
    requires OpenWindow(log, length, start, now) && now <= restart && start + length <= restart
    ensures OpenWindow(log, length, restart, restart) && SumWindow(log, restart) == 0
  {
    EmptyWindow(log, restart);
  }

  lemma SpacedAppend(log: seq<Admit>, length: int, a: Admit)
    requires Spaced(log, length) && a.cost >= 0 && a.window <= a.time < a.window + length
    requires forall i :: 0 <= i < |log| ==> log[i].window == a.window || log[i].window + length <= a.window
    ensures Spaced(log + [a], length)
  {
  }

  lemma OrderAppend(log: seq<Admit>, a: Admit)
    requires InTimeOrder(log) && forall i :: 0 <= i < |log| ==> log[i].time <= a.time
    ensures InTimeOrder(log + [a])
  {
  }

  lemma WindowAdmits(log: seq<Admit>, length: int, start: int, now: int, cost: nat)
    requires OpenWindow(log, length, start, now) && now < start + length
    ensures OpenWindow(log + [Admit(now, cost, start)], length, start, now)
  {
    SpacedAppend(log, length, Admit(now, cost, start));
    OrderAppend(log, Admit(now, cost, start));
  }
}
