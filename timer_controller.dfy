/**
 * The stopwatch the round is timed with. It has three fields, `start_time`,
 * `is_running` and `stopped_time`, that `start`, `stop` and `reset` update. The wall
 * clock (`time.time()`) is not modelled: each operation that reads it takes the
 * current instant as the argument `now`.
 */
module Timer {
  import opened Wrappers

  /** The three states the fields encode: never started (or reset), running since
      `start`, or stopped with the elapsed time frozen at `frozen`. */
  datatype Phase = NotStarted | Running(start: real) | Stopped(frozen: real)

  class TimerController {
    var startTime: Option<real>
    var isRunning: bool
    var stoppedTime: Option<real>

    /** The field combinations that `start`, `stop` and `reset` can produce from the
        initial state. */
    predicate Valid()
      reads this
    {
      && (startTime.None? ==> !isRunning && stoppedTime.None?)
      && (isRunning ==> stoppedTime.None?)
      && (startTime.Some? && !isRunning ==> stoppedTime.Some?)
    }

    /** The state the fields stand for. */
    function CurrentPhase(): Phase
      reads this
      requires Valid()
    {
      if startTime.None? then NotStarted
      else if isRunning then Running(startTime.value)
      else Stopped(stoppedTime.value)
    }

    constructor ()
      ensures startTime == None && !isRunning && stoppedTime == None
      ensures Valid() && CurrentPhase() == NotStarted
    {
      startTime := None;
      isRunning := false;
      stoppedTime := None;
    }

    /** `start`: records the instant, runs, and drops any frozen value, from any state. */
    method Start(now: real)
      modifies this
      ensures startTime == Some(now) && isRunning && stoppedTime == None
      ensures Valid() && CurrentPhase() == Running(now)
    {
      startTime := Some(now);
      isRunning := true;
      stoppedTime := None;
    }

    /** `stop`: when running, freezes the time elapsed since the start; in every case
        clears `is_running`. Stopping a timer that is not running (not started, or
        already stopped) changes nothing observable. */
    method Stop(now: real)
      modifies this
      ensures startTime == old(startTime) && !isRunning
      ensures stoppedTime == if old(isRunning) && old(startTime).Some? then Some(now - old(startTime).value)
                             else old(stoppedTime)
      ensures old(Valid()) ==> Valid()
      ensures old(Valid()) ==> CurrentPhase() == match old(CurrentPhase())
                                                 case Running(start) => Stopped(now - start)
                                                 case other => other
    {
      if isRunning && startTime.Some? {
        stoppedTime := Some(now - startTime.value);
      }
      isRunning := false;
    }

    /** `reset`: back to the initial state from any state. */
    method Reset()
      modifies this
      ensures startTime == None && !isRunning && stoppedTime == None
      ensures Valid() && CurrentPhase() == NotStarted
    {
      startTime := None;
      isRunning := false;
      stoppedTime := None;
    }

    /** `get_elapsed_time` at the instant `now`: 0 before any start, the time since the
        start while running, the frozen value once stopped. */
    function GetElapsedTime(now: real): (t: real)
      reads this
      ensures startTime.None? ==> t == 0.0
      ensures Valid() ==> t == match CurrentPhase()
                               case NotStarted => 0.0
                               case Running(start) => now - start
                               case Stopped(frozen) => frozen
    {
      if startTime.None? then 0.0
      else if isRunning then now - startTime.value
      else if stoppedTime.Some? then stoppedTime.value
      else 0.0
    }

    /** `is_timer_running`. */
    function IsTimerRunning(): (b: bool)
      reads this
      ensures Valid() ==> (b <==> CurrentPhase().Running?)
    {
      isRunning
    }
  }

  /** While the timer runs, the reading grows with the clock: it is non-decreasing
      exactly as far as the instants passed in are. */
  lemma ElapsedFollowsClock(timer: TimerController, now1: real, now2: real)
    requires timer.Valid() && timer.CurrentPhase().Running?
    ensures timer.GetElapsedTime(now1) <= timer.GetElapsedTime(now2) <==> now1 <= now2
    ensures timer.GetElapsedTime(now2) - timer.GetElapsedTime(now1) == now2 - now1
  {
  }

  /** Once stopped, or before any start, the reading ignores the clock. */
  lemma ElapsedIgnoresClockUnlessRunning(timer: TimerController, now1: real, now2: real)
    requires timer.Valid() && !timer.CurrentPhase().Running?
    ensures timer.GetElapsedTime(now1) == timer.GetElapsedTime(now2)
  {
  }
}
