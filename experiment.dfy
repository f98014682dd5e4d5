/**
 * The tick-driven experiment clock shared by `Program::runIter`
 * (svs/chat.hpp) and `Producer::runIter` (syncps/eval.cpp): the state each
 * tick reads and writes, and what a sequence of ticks does to it.
 */
module Experiment {

  /** The last elapsed second (since the first tick) at which a tick publishes. */
  const PublishWindow := 120
  /** The last elapsed second at which a tick re-arms the timer: 120 + 30. */
  const RunWindow := 150

  datatype Phase = Publishing | Draining | Done

  /** The phase a tick observes, `elapsed` seconds after the first tick. */
  function PhaseAt(elapsed: int): Phase {
    if elapsed <= PublishWindow then Publishing
    else if elapsed <= RunWindow then Draining
    else Done
  }

  function Rank(p: Phase): nat {
    match p
    case Publishing => 0
    case Draining => 1
    case Done => 2
  }

  /** Phases never regress as elapsed time grows. */
  lemma PhaseMonotonic(e1: int, e2: int)
    requires e1 <= e2
    ensures Rank(PhaseAt(e1)) <= Rank(PhaseAt(e2))
  {
  }

  /**
   * The harness-owned state: `start_time` (0 while unset), `curr_i`, whether a
   * timer is armed, and whether the sync handle and the face are still up.
   */
  datatype Clock = Clock(startTime: int, counter: int, pendingTick: bool, alive: bool)

  /** The state after construction: the first tick is armed, nothing published. */
  const Initial := Clock(0, 0, true, true)

  /** `if (start_time == 0) start_time = now;` */
  function StartTime(recorded: int, now: int): int {
    if recorded == 0 then now else recorded
  }

  /** One `runIter` at wall-clock second `now`. */
  function Step(c: Clock, now: int): Clock
    requires c.pendingTick
  {
    var start := StartTime(c.startTime, now);
    var phase := PhaseAt(now - start);
    Clock(start,
          if phase == Publishing then c.counter + 1 else c.counter,
          phase != Done,
          phase != Done)
  }

  /** Each successive tick of `nows` finds a timer armed: the only way `runIter` runs. */
  predicate Ticks(c: Clock, nows: seq<int>)
    decreases |nows|
  {
    |nows| == 0 || (c.pendingTick && Ticks(Step(c, nows[0]), nows[1..]))
  }

  /** The state after the ticks at times `nows`. */
  function After(c: Clock, nows: seq<int>): Clock
    requires Ticks(c, nows)
    decreases |nows|
  {
    if |nows| == 0 then c else After(Step(c, nows[0]), nows[1..])
  }

  /** How many of `nows` lie at most `limit` seconds after `start`. */
  function CountWithin(nows: seq<int>, start: int, limit: int): nat
    decreases |nows|
  {
    if |nows| == 0 then 0
    else (if nows[0] - start <= limit then 1 else 0) + CountWithin(nows[1..], start, limit)
  }

  /** Once recorded, the start time is never changed by later ticks. */
  lemma {:induction false} StartKept(c: Clock, nows: seq<int>)
    requires c.startTime != 0 && Ticks(c, nows)
    ensures After(c, nows).startTime == c.startTime
    decreases |nows|
  {
    if |nows| > 0 {
      StartKept(Step(c, nows[0]), nows[1..]);
    }
  }

  /** The start time is the time of the first tick (unless that tick read the sentinel 0). */
  lemma FirstTickSetsStart(nows: seq<int>)
    requires |nows| > 0 && nows[0] != 0 && Ticks(Initial, nows)
    ensures After(Initial, nows).startTime == nows[0]
  {
    StartKept(Step(Initial, nows[0]), nows[1..]);
  }

  /** The counter rises by exactly one per tick observed in the publishing window. */
  lemma {:induction false} CounterCountsPublishingTicks(c: Clock, nows: seq<int>)
    requires c.startTime != 0 && Ticks(c, nows)
    ensures After(c, nows).counter == c.counter + CountWithin(nows, c.startTime, PublishWindow)
    decreases |nows|
  {
    if |nows| > 0 {
      CounterCountsPublishingTicks(Step(c, nows[0]), nows[1..]);
    }
  }

  /** From construction, `curr_i` ends up as the number of ticks within 120 s of the first one. */
  lemma PublishCount(nows: seq<int>)
    requires |nows| > 0 && nows[0] != 0 && Ticks(Initial, nows)
    ensures After(Initial, nows).counter == CountWithin(nows, nows[0], PublishWindow)
  {
    var c1 := Step(Initial, nows[0]);
    CounterCountsPublishingTicks(c1, nows[1..]);
  }

  /**
   * Only the last tick can observe more than 150 s: a tick that does disarms
   * the timer and releases the handle, so no tick follows it, and the harness
   * is still running exactly when the last tick was within 150 s.
   */
  lemma {:induction false} OnlyLastTickLate(c: Clock, nows: seq<int>)
    requires c.startTime != 0 && Ticks(c, nows)
    ensures forall k :: 0 <= k < |nows| - 1 ==> nows[k] - c.startTime <= RunWindow
    ensures |nows| > 0 ==>
      After(c, nows).pendingTick == After(c, nows).alive == (nows[|nows| - 1] - c.startTime <= RunWindow)
    decreases |nows|
  {
    if |nows| > 0 {
      var c1 := Step(c, nows[0]);
      if |nows| > 1 {
        OnlyLastTickLate(c1, nows[1..]);
        assert nows[0] - c.startTime <= RunWindow;
        forall k | 0 <= k < |nows| - 1 ensures nows[k] - c.startTime <= RunWindow {
          if k > 0 {
            assert nows[k] == nows[1..][k - 1];
          }
        }
        assert nows[|nows| - 1] == nows[1..][|nows[1..]| - 1];
      }
    }
  }

  /** A stopped harness accepts no further tick. */
  lemma {:induction false} StoppedIsFinal(c: Clock, nows: seq<int>)
    requires !c.pendingTick && |nows| > 0
    ensures !Ticks(c, nows)
  {
  }

  /**
   * Time is read in whole seconds: a tick 150 s after the first one still
   * re-arms the timer, and only a tick that reads 151 s or more stops it.
   */
  lemma StopNeedsWholeSeconds(start: int, counter: int)
    requires start != 0
    ensures Step(Clock(start, counter, true, true), start + 150).pendingTick
    ensures !Step(Clock(start, counter, true, true), start + 151).pendingTick
    ensures !Step(Clock(start, counter, true, true), start + 151).alive
  {
  }
}
