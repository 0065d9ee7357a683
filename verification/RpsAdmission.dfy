/** Which calls an RPSLimiter admits, told from the earlier calls and the log. */
module RpsAdmission {
  import opened Common
  import opened Windows
  import opened RpsLimiting

  /** The deadline of the latest Backoff. */
  function Deadline(evs: seq<Event>): Option<int> {
    if evs == [] then None
    else
      match evs[|evs| - 1]
      case Backoff(now, duration) => Some(now + duration)
      case Wait(_) => Deadline(evs[..|evs| - 1])
  }

  predicate Paused(evs: seq<Event>, now: int) {
    Deadline(evs).Some? && now < Deadline(evs).value
  }

  /** When the window was opened that is open after these calls: by the last unpaused call that found the one before run out. */
  function Opened(window: int, start: int, evs: seq<Event>): int {
    if evs == [] then start
    else
      var front, ev := evs[..|evs| - 1], evs[|evs| - 1];
      var open := Opened(window, start, front);
      if ev.Wait? && !Paused(front, ev.now) && ev.now >= open + window then ev.now else open
  }

  lemma OpenedLast(window: int, start: int, evs: seq<Event>, ev: Event)
    ensures var open := Opened(window, start, evs);
      Opened(window, start, evs + [ev]) == if ev.Wait? && !Paused(evs, ev.now) && ev.now >= open + window then ev.now else open
    ensures Deadline(evs + [ev]) == if ev.Backoff? then Some(ev.now + ev.duration) else Deadline(evs)
  {
    assert (evs + [ev])[..|evs|] == evs;
  }

  lemma {:induction false} StateFromCalls(s: Rps, evs: seq<Event>)
    requires s.backoff == None
    ensures Run(s, evs).s.start == Opened(s.window, s.start, evs) && Run(s, evs).s.backoff == Deadline(evs)
    ensures SameConfig(Run(s, evs).s, s)
  {
    if evs != [] {
      var front, last := evs[..|evs| - 1], evs[|evs| - 1];
      assert evs == front + [last];
      StateFromCalls(s, front);
      RunLast(s, front, last);
      OpenedLast(s.window, s.start, front, last);
    }
  }

  /**
   * In every timed run a call is admitted exactly if the latest Backoff is over and fewer calls than the
   * limit are logged in the open window (none, if it has run out); it is then logged in its window.
   */
  lemma AdmitsExactly(limit: int, window: int, start: int, evs: seq<Event>, now: int)
    requires window > 0 && Timed(start, evs)
    ensures var s := Fresh(limit, window, start);
      var log, open := Run(s, evs).log, Opened(window, start, evs);
      var over := now >= open + window;
      Run(s, evs + [Wait(now)]).log ==
      if !Paused(evs, now) && (if over then 0 else SumWindow(log, open)) < limit
      then log + [Admit(now, 1, if over then now else open)] else log
  {
    var s := Fresh(limit, window, start);
    StateFromCalls(s, evs);
    RunInvariant(s, evs, start);
    RunLast(s, evs, Wait(now));
  }
}
