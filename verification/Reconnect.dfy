/** Client.Run: reconnecting with exponential, jittered and capped delays. Durations are in nanoseconds. */
module Reconnect {
  import opened Common

  const BASE_BACKOFF := 100_000_000
  const DEFAULT_MAX_BACKOFF := 30_000_000_000

  /** jitter stands for rand.Int63n(prev + 1): any value from 0 to prev. */
  function NextBackoff(prev: nat, max: nat, jitter: nat): nat {
    Min(2 * prev + jitter % (prev + 1), max)
  }

  /**
   * The world's answers in one turn of the loop: was Close called, did the connection succeed, was the
   * context cancelled by the time of the check after it, which jitter came up, and was the context
   * cancelled during the delay.
   */
  datatype Turn = Turn(closed: bool, connects: bool, cancelled: bool, jitter: nat, cancelledInDelay: bool)

  datatype Outcome = Running | Closed | Cancelled

  /** A delay of the loop; nth counts from 1 since the last successful connection (or the start). */
  datatype Delay = Delay(nth: nat, length: nat)

  /** dials: how often a connection was attempted. */
  datatype Loop = Loop(backoff: nat, streak: nat, delays: seq<Delay>, dials: nat, outcome: Outcome)

  function Step(s: Loop, turn: Turn, max: nat): Loop {
    if s.outcome != Running then s
    else if turn.closed then s.(outcome := Closed)
    else
      var dialled := s.(dials := s.dials + 1);
      var t := if turn.connects then dialled.(backoff := BASE_BACKOFF, streak := 0) else dialled;
      if turn.cancelled then t.(outcome := Cancelled)
      else
        var next := NextBackoff(t.backoff, max, turn.jitter);
        Loop(next, t.streak + 1, t.delays + [Delay(t.streak + 1, next)], t.dials, if turn.cancelledInDelay then Cancelled else Running)
  }

  function After(turns: seq<Turn>, max: nat): Loop {
    if turns == [] then Loop(BASE_BACKOFF, 0, [], 0, Running)
    else Step(After(turns[..|turns| - 1], max), turns[|turns| - 1], max)
  }

  /** The loop of Run, fed with the world's answers; it stops early when Run returns. */
  method Run(turns: seq<Turn>, max: nat) returns (delays: seq<Delay>, dials: nat, outcome: Outcome)
    ensures delays == After(turns, max).delays
    ensures dials == After(turns, max).dials
    ensures outcome == After(turns, max).outcome
  {
    var backoff: nat, streak: nat := BASE_BACKOFF, 0;
    delays, dials, outcome := [], 0, Running;
    var i := 0;
    while i < |turns| && outcome == Running
      invariant 0 <= i <= |turns|
      invariant After(turns[..i], max) == Loop(backoff, streak, delays, dials, outcome)
    {
      assert turns[..i + 1][..i] == turns[..i];
      var turn := turns[i];
      i := i + 1;
      if turn.closed {
        outcome := Closed;
        continue;
      }
      dials := dials + 1;
      if !turn.connects {
        if turn.cancelled {
          outcome := Cancelled;
          continue;
        }
      } else {
        backoff, streak := BASE_BACKOFF, 0;
        if turn.cancelled {
          outcome := Cancelled;
          continue;
        }
      }
      backoff := NextBackoff(backoff, max, turn.jitter);
      streak := streak + 1;
      delays := delays + [Delay(streak, backoff)];
      if turn.cancelledInDelay {
        outcome := Cancelled;
      }
    }
    StoppedStays(turns, max, i);
  }

  lemma {:induction false} StoppedStays(turns: seq<Turn>, max: nat, i: nat)
    requires i <= |turns| && (i < |turns| ==> After(turns[..i], max).outcome != Running)
    ensures After(turns, max) == After(turns[..i], max)
  {
    if i < |turns| {
      assert turns[..|turns| - 1][..i] == turns[..i];
      StoppedStays(turns[..|turns| - 1], max, i);
    } else {
      assert turns[..i] == turns;
    }
  }

  // ----- What the turns alone tell -----

  /** The turn ends Run. */
  predicate Ends(turn: Turn) {
    turn.closed || turn.cancelled || turn.cancelledInDelay
  }

  predicate NoneEnds(turns: seq<Turn>, n: nat)
    requires n <= |turns|
  {
    forall i :: 0 <= i < n ==> !Ends(turns[i])
  }

  /** One plus the number of turns since the last one that connected, or since the start. */
  function SinceConnected(turns: seq<Turn>, j: nat): nat
    requires j < |turns|
    ensures SinceConnected(turns, j) >= 1
  {
    if turns[j].connects || j == 0 then 1 else SinceConnected(turns, j - 1) + 1
  }

  lemma AfterLast(turns: seq<Turn>, turn: Turn, max: nat)
    ensures After(turns + [turn], max) == Step(After(turns, max), turn, max)
  {
    assert (turns + [turn])[..|turns|] == turns;
  }

  lemma {:induction false} SinceConnectedFront(front: seq<Turn>, last: Turn, j: nat)
    requires j < |front|
    ensures SinceConnected(front + [last], j) == SinceConnected(front, j)
  {
    if j > 0 {
      SinceConnectedFront(front, last, j - 1);
    }
  }

  /** The delays so far are one per turn, each numbered from the last connection. */
  predicate NumberedByTurns(turns: seq<Turn>, delays: seq<Delay>) {
    |delays| <= |turns| && forall j :: 0 <= j < |delays| ==> delays[j].nth == SinceConnected(turns, j)
  }

  lemma NumberedFront(front: seq<Turn>, last: Turn, delays: seq<Delay>)
    requires NumberedByTurns(front, delays)
    ensures NumberedByTurns(front + [last], delays)
  {
    forall j | 0 <= j < |delays| ensures delays[j].nth == SinceConnected(front + [last], j) {
      SinceConnectedFront(front, last, j);
    }
  }

  /** As long as no turn ends it, Run dials and waits once per turn. */
  lemma {:induction false} RunsOn(turns: seq<Turn>, max: nat)
    requires NoneEnds(turns, |turns|)
    ensures var s := After(turns, max);
      && s.outcome == Running && s.dials == |turns| && |s.delays| == |turns|
      && s.streak == (if turns == [] then 0 else SinceConnected(turns, |turns| - 1))
      && NumberedByTurns(turns, s.delays)
  {
    if turns != [] {
      var front, last := turns[..|turns| - 1], turns[|turns| - 1];
      assert turns == front + [last];
      assert forall i :: 0 <= i < |front| ==> front[i] == turns[i];
      RunsOn(front, max);
      AfterLast(front, last, max);
      NumberedFront(front, last, After(front, max).delays);
      if front != [] {
        SinceConnectedFront(front, last, |front| - 1);
      }
    }
  }

  lemma NumberedPrefix(turns: seq<Turn>, m: nat, delays: seq<Delay>)
    requires m <= |turns| && NumberedByTurns(turns[..m], delays)
    ensures NumberedByTurns(turns, delays)
  {
    forall j | 0 <= j < |delays| ensures delays[j].nth == SinceConnected(turns, j) {
      SincePrefix(turns, m, j);
    }
  }

  /** The turn that ends Run, after a front that does not. */
  lemma EndsWith(front: seq<Turn>, last: Turn, max: nat)
    requires NoneEnds(front, |front|) && Ends(last)
    ensures var s := After(front + [last], max);
      && s.outcome == (if last.closed then Closed else Cancelled)
      && s.dials == |front| + (if last.closed then 0 else 1)
      && |s.delays| == |front| + (if last.closed || last.cancelled then 0 else 1)
      && NumberedByTurns(front + [last], s.delays)
  {
    RunsOn(front, max);
    AfterLast(front, last, max);
    NumberedFront(front, last, After(front, max).delays);
    if front != [] {
      SinceConnectedFront(front, last, |front| - 1);
    }
  }

  /**
   * Run goes on until the first turn that ends it. It then returns nil if Close came before that turn,
   * which it finds out before it dials again, and the context's error otherwise; it has dialled once a
   * turn, and waited once a turn unless it ended before the delay.
   */
  lemma ReturnsExactly(turns: seq<Turn>, max: nat, n: nat)
    requires n < |turns| && NoneEnds(turns, n) && Ends(turns[n])
    ensures var s, last := After(turns, max), turns[n];
      && s.outcome == (if last.closed then Closed else Cancelled)
      && s.dials == n + (if last.closed then 0 else 1)
      && |s.delays| == n + (if last.closed || last.cancelled then 0 else 1)
      && NumberedByTurns(turns, s.delays)
  {
    EndsWith(turns[..n], turns[n], max);
    assert turns[..n + 1] == turns[..n] + [turns[n]];
    StoppedStays(turns, max, n + 1);
    NumberedPrefix(turns, n + 1, After(turns, max).delays);
  }

  lemma {:induction false} SincePrefix(turns: seq<Turn>, m: nat, j: nat)
    requires j < m <= |turns|
    ensures SinceConnected(turns[..m], j) == SinceConnected(turns, j)
  {
    if j > 0 {
      SincePrefix(turns, m, j - 1);
    }
  }

  // ----- Bounds -----

  function Pow(base: nat, n: nat): nat {
    if n == 0 then 1 else base * Pow(base, n - 1)
  }

  function Lower(nth: nat, max: nat): nat {
    Min(max, BASE_BACKOFF * Pow(2, nth))
  }

  function Upper(nth: nat, max: nat): nat {
    Min(max, BASE_BACKOFF * Pow(3, nth))
  }

  predicate Bounded(d: Delay, max: nat) {
    d.nth >= 1 && Lower(d.nth, max) <= d.length <= Upper(d.nth, max)
  }

  /** Delays come in streaks that count up from 1 and never get shorter. */
  predicate Streaks(delays: seq<Delay>) {
    forall i :: 0 <= i < |delays| && delays[i].nth != 1 ==>
      i > 0 && delays[i].nth == delays[i - 1].nth + 1 && delays[i - 1].length <= delays[i].length
  }

  predicate Fits(backoff: nat, streak: nat, delays: seq<Delay>, max: nat) {
    && (forall i :: 0 <= i < |delays| ==> Bounded(delays[i], max))
    && Streaks(delays)
    && (streak == 0 ==> backoff == BASE_BACKOFF)
    && (streak > 0 ==> delays != [] && delays[|delays| - 1] == Delay(streak, backoff))
  }

  lemma NextBounds(nth: nat, prev: nat, max: nat, jitter: nat)
    requires if nth == 0 then prev == BASE_BACKOFF else Bounded(Delay(nth, prev), max)
    ensures Bounded(Delay(nth + 1, NextBackoff(prev, max, jitter)), max)
    ensures nth > 0 ==> prev <= NextBackoff(prev, max, jitter)
  {
    assert 0 <= jitter % (prev + 1) <= prev;
    assert Pow(2, nth + 1) == 2 * Pow(2, nth) && Pow(3, nth + 1) == 3 * Pow(3, nth);
    assert nth == 0 ==> Pow(2, nth) == 1 && Pow(3, nth) == 1;
  }

  lemma DelayAppended(delays: seq<Delay>, d: Delay, max: nat)
    requires (forall i :: 0 <= i < |delays| ==> Bounded(delays[i], max)) && Streaks(delays) && Bounded(d, max)
    requires d.nth == 1 || (delays != [] && d.nth == delays[|delays| - 1].nth + 1 && delays[|delays| - 1].length <= d.length)
    ensures (forall i :: 0 <= i < |delays + [d]| ==> Bounded((delays + [d])[i], max)) && Streaks(delays + [d])
  {
  }

  lemma WaitFits(backoff: nat, streak: nat, delays: seq<Delay>, max: nat, jitter: nat)
    requires Fits(backoff, streak, delays, max)
    ensures var next := NextBackoff(backoff, max, jitter);
      Fits(next, streak + 1, delays + [Delay(streak + 1, next)], max)
  {
    var next := NextBackoff(backoff, max, jitter);
    assert streak > 0 ==> Bounded(delays[|delays| - 1], max);
    NextBounds(streak, backoff, max, jitter);
    DelayAppended(delays, Delay(streak + 1, next), max);
  }

  lemma {:induction false} EveryDelayFits(turns: seq<Turn>, max: nat)
    ensures var s := After(turns, max); Fits(s.backoff, s.streak, s.delays, max)
  {
    if turns != [] {
      var s, turn := After(turns[..|turns| - 1], max), turns[|turns| - 1];
      EveryDelayFits(turns[..|turns| - 1], max);
      if turn.connects {
        WaitFits(BASE_BACKOFF, 0, s.delays, max, turn.jitter);
      } else {
        WaitFits(s.backoff, s.streak, s.delays, max, turn.jitter);
      }
    }
  }

  /** For every jitter: the k-th delay of a streak is at least min(max, 100ms * 2^k) and at most min(max, 100ms * 3^k). */
  lemma BackoffBounds(turns: seq<Turn>, max: nat, i: nat)
    requires i < |After(turns, max).delays|
    ensures Bounded(After(turns, max).delays[i], max)
  {
    EveryDelayFits(turns, max);
  }

  /**
   * Every delay of every run, numbered by the turns alone: the k-th since the last turn that connected
   * lasts at least min(max, 100ms * 2^k) and at most min(max, 100ms * 3^k).
   */
  lemma DelaysByTurns(turns: seq<Turn>, max: nat, j: nat)
    requires j < |After(turns, max).delays|
    ensures j < |turns|
    ensures var k, d := SinceConnected(turns, j), After(turns, max).delays[j];
      && d.nth == k
      && Min(max, 100_000_000 * Pow(2, k)) <= d.length <= Min(max, 100_000_000 * Pow(3, k))
      && (turns[j].connects ==> Min(max, 200_000_000) <= d.length <= Min(max, 300_000_000))
  {
    BackoffBounds(turns, max, j);
    if NoneEnds(turns, |turns|) {
      RunsOn(turns, max);
    } else {
      var n := FirstEnd(turns);
      ReturnsExactly(turns, max, n);
    }
    assert Pow(2, 1) == 2 && Pow(3, 1) == 3;
  }

  lemma {:induction false} FirstEnd(turns: seq<Turn>) returns (n: nat)
    requires !NoneEnds(turns, |turns|)
    ensures n < |turns| && NoneEnds(turns, n) && Ends(turns[n])
  {
    n := 0;
    while !Ends(turns[n])
      invariant n < |turns| && NoneEnds(turns, n) && exists i :: n <= i < |turns| && Ends(turns[i])
      decreases |turns| - n
    {
      n := n + 1;
    }
  }

  /** The jitter reaches every delay from twice to three times the one before, up to the cap, and no other. */
  lemma JitterRange(prev: nat, max: nat, d: nat)
    ensures (exists jitter: nat :: NextBackoff(prev, max, jitter) == d) <==> Min(2 * prev, max) <= d <= Min(3 * prev, max)
  {
    if Min(2 * prev, max) <= d <= Min(3 * prev, max) {
      var jitter: nat := if d < 2 * prev then 0 else d - 2 * prev;
      assert NextBackoff(prev, max, jitter) == d;
    }
  }

  /** n failed turns with these jitters. */
  function FailedTurns(jitters: seq<nat>): seq<Turn> {
    seq(|jitters|, i requires 0 <= i < |jitters| => Turn(false, false, false, jitters[i], false))
  }

  lemma FailedLast(jitters: seq<nat>, jitter: nat, max: nat)
    ensures After(FailedTurns(jitters + [jitter]), max)
         == Step(After(FailedTurns(jitters), max), Turn(false, false, false, jitter, false), max)
  {
    assert FailedTurns(jitters + [jitter]) == FailedTurns(jitters) + [Turn(false, false, false, jitter, false)];
    AfterLast(FailedTurns(jitters), Turn(false, false, false, jitter, false), max);
  }

  lemma LeastNext(n: nat, max: nat)
    ensures n > 0 ==> NextBackoff(Lower(n, max), max, 0) == Lower(n + 1, max)
    ensures n == 0 ==> NextBackoff(BASE_BACKOFF, max, 0) == Lower(n + 1, max)
  {
    assert Pow(2, n + 1) == 2 * Pow(2, n) && Pow(2, 0) == 1;
  }

  lemma MostNext(n: nat, max: nat)
    ensures n > 0 ==> NextBackoff(Upper(n, max), max, Upper(n, max)) == Upper(n + 1, max)
    ensures n == 0 ==> NextBackoff(BASE_BACKOFF, max, BASE_BACKOFF) == Upper(n + 1, max)
  {
    assert Pow(3, n + 1) == 3 * Pow(3, n) && Pow(3, 0) == 1;
  }

  predicate WaitedLast(s: Loop, n: nat, length: nat) {
    s.outcome == Running && s.streak == n && (n > 0 ==> s.backoff == length) && (n == 0 ==> s.backoff == BASE_BACKOFF)
  }

  lemma {:induction false} LeastIsMet(n: nat, max: nat) returns (jitters: seq<nat>)
    ensures |jitters| == n && WaitedLast(After(FailedTurns(jitters), max), n, Lower(n, max))
  {
    jitters := [];
    if n > 0 {
      var front := LeastIsMet(n - 1, max);
      LeastNext(n - 1, max);
      FailedLast(front, 0, max);
      jitters := front + [0];
    }
  }

  lemma {:induction false} MostIsMet(n: nat, max: nat) returns (jitters: seq<nat>)
    ensures |jitters| == n && WaitedLast(After(FailedTurns(jitters), max), n, Upper(n, max))
  {
    jitters := [];
    if n > 0 {
      var front := MostIsMet(n - 1, max);
      MostNext(n - 1, max);
      var jitter := if n == 1 then BASE_BACKOFF else Upper(n - 1, max);
      FailedLast(front, jitter, max);
      jitters := front + [jitter];
    }
  }

  /** Both bounds are met, at every place of a streak and for every cap. */
  lemma BoundsAreMet(n: nat, max: nat) returns (least: seq<nat>, most: seq<nat>)
    requires n > 0
    ensures |least| == n == |most|
    ensures var delays := After(FailedTurns(least), max).delays; |delays| == n && delays[n - 1] == Delay(n, Lower(n, max))
    ensures var delays := After(FailedTurns(most), max).delays; |delays| == n && delays[n - 1] == Delay(n, Upper(n, max))
  {
    least := LeastIsMet(n, max);
    most := MostIsMet(n, max);
    LastDelayOf(least, max);
    LastDelayOf(most, max);
  }

  lemma LastDelayOf(jitters: seq<nat>, max: nat)
    requires jitters != []
    ensures var s := After(FailedTurns(jitters), max);
      |s.delays| == |jitters| && (s.streak > 0 ==> s.delays[|s.delays| - 1] == Delay(s.streak, s.backoff))
  {
    RunsOn(FailedTurns(jitters), max);
    EveryDelayFits(FailedTurns(jitters), max);
  }

  /** Within a streak delays never decrease. */
  lemma {:induction false} StreakNeverShortens(turns: seq<Turn>, max: nat, i: nat, j: nat)
    requires i <= j < |After(turns, max).delays|
    requires forall k :: i < k <= j ==> After(turns, max).delays[k].nth != 1
    ensures var delays := After(turns, max).delays;
      delays[j].nth == delays[i].nth + (j - i) && delays[i].length <= delays[j].length
    decreases j
  {
    EveryDelayFits(turns, max);
    if i < j {
      StreakNeverShortens(turns, max, i, j - 1);
    }
  }

  /** With the default cap, from the ninth delay of a streak on every delay is exactly 30 seconds. */
  lemma DefaultSaturates(turns: seq<Turn>, i: nat)
    requires i < |After(turns, DEFAULT_MAX_BACKOFF).delays| && After(turns, DEFAULT_MAX_BACKOFF).delays[i].nth >= 9
    ensures After(turns, DEFAULT_MAX_BACKOFF).delays[i].length == DEFAULT_MAX_BACKOFF
  {
    BackoffBounds(turns, DEFAULT_MAX_BACKOFF, i);
    PowGrows(9, After(turns, DEFAULT_MAX_BACKOFF).delays[i].nth);
    assert Pow(2, 9) == 512 by {
      assert Pow(2, 3) == 8 && Pow(2, 6) == 64;
    }
  }

  lemma {:induction false} PowGrows(m: nat, n: nat)
    requires m <= n
    ensures Pow(2, m) <= Pow(2, n)
  {
    if m < n {
      PowGrows(m, n - 1);
    }
  }

  function Total(delays: seq<Delay>): nat {
    if delays == [] then 0 else Total(delays[..|delays| - 1]) + delays[|delays| - 1].length
  }

  function LowerTotal(delays: seq<Delay>, max: nat): nat {
    if delays == [] then 0 else LowerTotal(delays[..|delays| - 1], max) + Lower(delays[|delays| - 1].nth, max)
  }

  lemma {:induction false} TotalAtLeast(delays: seq<Delay>, max: nat)
    requires forall i :: 0 <= i < |delays| ==> Bounded(delays[i], max)
    ensures Total(delays) >= LowerTotal(delays, max)
  {
    if delays != [] {
      TotalAtLeast(delays[..|delays| - 1], max);
    }
  }

  /** Any stretch of consecutive delays takes at least the sum of its lower bounds. */
  lemma StretchTakesAtLeast(turns: seq<Turn>, max: nat, i: nat, j: nat)
    requires i <= j <= |After(turns, max).delays|
    ensures Total(After(turns, max).delays[i..j]) >= LowerTotal(After(turns, max).delays[i..j], max)
  {
    EveryDelayFits(turns, max);
    TotalAtLeast(After(turns, max).delays[i..j], max);
  }

  lemma {:induction false} StreakLowerTotal(delays: seq<Delay>, max: nat)
    requires forall i :: 0 <= i < |delays| ==> delays[i].nth == i + 1
    requires BASE_BACKOFF * Pow(2, |delays|) <= max
    ensures LowerTotal(delays, max) == BASE_BACKOFF * (Pow(2, |delays| + 1) - 2)
  {
    if delays != [] {
      StreakLowerTotal(delays[..|delays| - 1], max);
      assert Pow(2, |delays| + 1) == 2 * Pow(2, |delays|);
    } else {
      assert Pow(2, 1) == 2 * Pow(2, 0);
    }
  }

  /** n failures in a row below the cap wait for at least 100ms * (2^(n+1) - 2) in all. */
  lemma FailuresInARow(turns: seq<Turn>, max: nat)
    requires forall i :: 0 <= i < |turns| ==> turns[i] == Turn(false, false, false, turns[i].jitter, false)
    requires BASE_BACKOFF * Pow(2, |turns|) <= max
    ensures |After(turns, max).delays| == |turns|
    ensures Total(After(turns, max).delays) >= BASE_BACKOFF * (Pow(2, |turns| + 1) - 2)
  {
    OneStreak(turns, max);
    EveryDelayFits(turns, max);
    TotalAtLeast(After(turns, max).delays, max);
    StreakLowerTotal(After(turns, max).delays, max);
  }

  lemma {:induction false} OneStreak(turns: seq<Turn>, max: nat)
    requires forall i :: 0 <= i < |turns| ==> turns[i] == Turn(false, false, false, turns[i].jitter, false)
    ensures var s := After(turns, max);
      && s.outcome == Running && s.streak == |turns| == |s.delays|
      && forall i :: 0 <= i < |s.delays| ==> s.delays[i].nth == i + 1
  {
    if turns != [] {
      OneStreak(turns[..|turns| - 1], max);
    }
  }
}
