/** The clocks that the program reads. */
module Clocks {

  /** The later of two instants. */
  function Later(a: real, b: real): real { if a < b then b else a }

  /** Readings never go back and a sleep lasts at least as long as asked; an `ideal` clock moves
      only during sleeps, and by exactly what was asked. */
  class Clock {
    var now: real
    const ideal: bool

    constructor (start: real, ideal: bool)
      ensures now == start && this.ideal == ideal
    {
      now, this.ideal := start, ideal;
    }

    method Now() returns (t: real)
      modifies this
      ensures old(now) <= now == t
      ensures ideal ==> now == old(now)
    {
      var lag: real := *;
      if !ideal && 0.0 < lag { now := now + lag; }
      t := now;
    }

    method Sleep(duration: real)
      requires 0.0 < duration
      modifies this
      ensures old(now) + duration <= now
      ensures ideal ==> now == old(now) + duration
    {
      var extra: real := *;
      now := now + duration;
      if !ideal && 0.0 < extra { now := now + extra; }
    }
  }
}
