/**
 * `getDelay` of the tick hook: the timer period, in milliseconds, of an
 * interval counted in hours, minutes or seconds.
 */
module Tick {
  datatype Tick = Hour | Minute | Second

  /** `getDelay`: the interval converted to milliseconds. */
  function GetDelay(interval: int, tick: Tick): (ms: int)
    ensures tick == Hour ==> ms == interval * 3_600_000
    ensures tick == Minute ==> ms == interval * 60_000
    ensures tick == Second ==> ms == interval * 1000
  {
    match tick
    case Hour => interval * 60 * 60 * 1000
    case Minute => interval * 60 * 1000
    case Second => interval * 1000
  }

  /** An hour-based delay is sixty minute-based delays, and a minute-based one sixty second-based ones. */
  lemma DelayRatios(interval: int)
    ensures GetDelay(interval, Hour) == 60 * GetDelay(interval, Minute)
    ensures GetDelay(interval, Minute) == 60 * GetDelay(interval, Second)
  {
  }

  /** Longer intervals give longer delays, for every unit. */
  lemma DelayMonotone(a: int, b: int, tick: Tick)
    requires a <= b
    ensures GetDelay(a, tick) <= GetDelay(b, tick)
  {
  }
}
