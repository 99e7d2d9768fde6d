/** The play timer: armed by a reset, started by the first interaction with the puzzle,
    advanced by a periodic tick, frozen when the puzzle is solved. The clock (`Date.now`)
    is the `now` parameter; the `setInterval` callback is `Tick`. */
module Timing {
  import opened Wrappers
  import opened Clock

  /** A live `setInterval` handle; its callback measures from the captured `start`. */
  datatype Interval = Interval(start: int)

  /** The module-level `timerMs`, `timerHandle`, `timerRunning` and `timerArmed`, the
      `#timerText` display (kept as the time it was last rendered from), and the count of
      first-interaction listeners still registered. */
  class Timer {
    var ms: int
    var handle: Option<Interval>
    var running: bool
    var armed: bool
    var shownMs: int
    var hooks: nat
    /** The clock reading at the last start or tick. */
    ghost var lastNow: int

    ghost predicate Valid()
      reads this
    {
      && (running <==> handle.Some?)
      && (armed ==> !running)
      && (handle.Some? ==> ms == lastNow - handle.value.start)
      && shownMs == ms
    }

    /** The text of `#timerText`. */
    function Display(): string
      reads this
    {
      FormatTime(shownMs)
    }

    /** The state at page load: zero, idle, not armed, display `00:00`. */
    constructor ()
      ensures Valid()
      ensures ms == 0 && !running && !armed && handle == None && hooks == 0
      ensures Display() == FormatTime(0)
    {
      ms, handle, running, armed, hooks := 0, None, false, false, 0;
      shownMs := 0;
      lastNow := 0;
    }

    /** `stopTimer`: cancel the interval; the elapsed time stays where it is. */
    method Stop()
      requires Valid()
      modifies this
      ensures Valid()
      ensures !running && handle == None
      ensures ms == old(ms) && armed == old(armed) && shownMs == old(shownMs) && hooks == old(hooks)
    {
      handle := None;
      running := false;
    }

    /** `resetTimer`: stop, zero the time, arm for the next first interaction. */
    method Reset()
      requires Valid()
      modifies this
      ensures Valid()
      ensures ms == 0 && armed && !running && handle == None && Display() == FormatTime(0)
      ensures hooks == old(hooks)
    {
      Stop();
      ms := 0;
      armed := true;
      running := false;
      shownMs := 0;
    }

    /** `startTimer`: a no-op while running; otherwise resume from the current `ms`
        (start reference `now - ms`) and disarm. */
    method Start(now: int)
      requires Valid()
      modifies this
      ensures Valid()
      ensures ms == old(ms) && shownMs == old(shownMs) && hooks == old(hooks)
      ensures old(running) ==> running && armed == old(armed) && handle == old(handle)
      ensures !old(running) ==> running && !armed && handle == Some(Interval(now - old(ms)))
    {
      if running {
        return;
      }
      running := true;
      armed := false;
      var start := now - ms;
      handle := Some(Interval(start));
      lastNow := now;
    }

    /** The interval callback: `timerMs = Date.now() - start` and the display is refreshed.
        Once the interval is cleared no callback runs. */
    method Tick(now: int)
      requires Valid()
      modifies this
      ensures Valid()
      ensures running == old(running) && armed == old(armed) && handle == old(handle)
      ensures hooks == old(hooks)
      ensures old(handle).Some? ==> ms == now - old(handle).value.start
      ensures old(handle).Some? ==> ms - old(ms) == now - old(lastNow)
      ensures old(handle).Some? && now >= old(lastNow) ==> ms >= old(ms)
      ensures old(handle).Some? ==> Display() == FormatTime(ms)
      ensures old(handle).None? ==> ms == old(ms) && shownMs == old(shownMs)
    {
      if handle.Some? {
        ms := now - handle.value.start;
        shownMs := ms;
        lastNow := now;
      }
    }

    /** `armTimerStartOnFirstInteraction`: register one more `startOnce` listener. */
    method ArmFirstInteraction()
      requires Valid()
      modifies this
      ensures Valid()
      ensures hooks == old(hooks) + 1
      ensures ms == old(ms) && running == old(running) && armed == old(armed)
      ensures handle == old(handle) && shownMs == old(shownMs)
    {
      hooks := hooks + 1;
    }

    /** A pointer or touch on the puzzle host reaches every registered `startOnce`; each
        removes itself, and each starts the timer only while it is armed. The first to run
        disarms it (or finds it already disarmed), so at most one start happens. */
    method FirstInteraction(now: int)
      requires Valid()
      modifies this
      ensures Valid()
      ensures hooks == 0 && ms == old(ms) && shownMs == old(shownMs)
      ensures old(hooks) > 0 && old(armed) ==>
        running && !armed && handle == Some(Interval(now - old(ms)))
      ensures !(old(hooks) > 0 && old(armed)) ==>
        running == old(running) && armed == old(armed) && handle == old(handle)
    {
      if hooks > 0 {
        if armed {
          Start(now);
        }
        hooks := 0;
      }
    }

    /** The shuffle button's timer part: `resetTimer()` followed by
        `armTimerStartOnFirstInteraction()`. */
    method Restart()
      requires Valid()
      modifies this
      ensures Valid()
      ensures ms == 0 && armed && !running && handle == None && Display() == FormatTime(0)
      ensures hooks == old(hooks) + 1
    {
      Reset();
      ArmFirstInteraction();
    }

    /** The solved callback: `stopTimer()`, then the win dialog shows `formatTime(timerMs)`,
        the same text the timer displays. */
    method Finish() returns (shown: string)
      requires Valid()
      modifies this
      ensures Valid()
      ensures !running && handle == None && ms == old(ms) && armed == old(armed)
      ensures shownMs == old(shownMs) && hooks == old(hooks)
      ensures shown == FormatTime(ms) && shown == Display()
    {
      Stop();
      shown := FormatTime(ms);
    }
  }
}
