/** Gravity timing of the game loop: how long the loop waits for a
    "descend now" signal before the timer makes the falling piece go down
    by itself, and which of the two wins the race. */
module Gravity {

  /** Delay at level 0, in milliseconds. */
  const BASE_DELAY: int := 800

  /** Milliseconds taken off the delay per level. */
  const LEVEL_STEP: int := 50

  /** Kotlin's Long.MAX_VALUE, the delay used while paused. */
  const LONG_MAX: int := 0x7FFF_FFFF_FFFF_FFFF

  /** Gravity delay for the given pause flag and score level:
      the linear formula clamped from below at 1 when running,
      the largest Long when paused. */
  function CalculateDelay(paused: bool, level: int): (d: int)
    ensures d >= 1
    ensures paused ==> d == LONG_MAX
    ensures !paused ==> d >= BASE_DELAY - level * LEVEL_STEP
    ensures !paused ==> d == 1 || d == BASE_DELAY - level * LEVEL_STEP
  {
    if !paused then
      var linear := BASE_DELAY - level * LEVEL_STEP;
      if linear < 1 then 1 else linear
    else
      LONG_MAX
  }

  /** At level 0 the running delay is the base delay. */
  lemma DelayAtLevelZero()
    ensures CalculateDelay(false, 0) == BASE_DELAY
  {
  }

  /** A higher level never gives a longer running delay. */
  lemma DelayNonIncreasing(lower: int, higher: int)
    requires lower <= higher
    ensures CalculateDelay(false, higher) <= CalculateDelay(false, lower)
  {
  }

  /** The running delay sits on its floor of 1 exactly from level 16 on. */
  lemma DelayFloorFromLevel16(level: int)
    ensures CalculateDelay(false, level) == 1 <==> level >= 16
  {
  }

  /** For every level the game can reach (levels are never negative), the
      paused delay is longer than any running delay. */
  lemma PausedDelayOutlastsRunning(level: int, other: int)
    requires level >= 0
    ensures CalculateDelay(false, level) <= BASE_DELAY < CalculateDelay(true, other)
  {
  }

  /** When, if ever, a "descend now" signal reaches the loop during one wait. */
  datatype Arrival = Never | At(time: nat)

  /** The branch of the loop's wait that completes. */
  datatype Wake = Signal | Timeout

  /** The wait completes with the signal if it arrives no later than the
      delay (the receiving clause is listed first, so it wins a tie), and
      with the timer otherwise. */
  function FirstWake(arrival: Arrival, delay: int): (w: Wake)
    ensures w == Timeout <==> (arrival == Never || arrival.time > delay)
  {
    match arrival
    case Never => Timeout
    case At(t) => if t <= delay then Signal else Timeout
  }

  /** While paused, a signal that arrives at any time a Long can measure
      wins over the timer: gravity does not fire on its own. */
  lemma PausedTimerNeverFiresFirst(level: int, t: nat)
    requires t <= LONG_MAX
    ensures FirstWake(At(t), CalculateDelay(true, level)) == Signal
  {
  }
}
