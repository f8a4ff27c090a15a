/** Durations: nanoseconds as integers, and their conversion to and from whole seconds. */
module Duration {

  /** Seconds in nanoseconds. */
  function Nanos(seconds: int): int { seconds * 1_000_000_000 }

  /** Conversion to whole seconds truncates toward zero. */
  function WholeSeconds(nanos: int): (seconds: int)
    ensures nanos >= 0 ==> seconds >= 0 && Nanos(seconds) <= nanos < Nanos(seconds + 1)
    ensures nanos <= 0 ==> seconds <= 0 && Nanos(seconds - 1) < nanos <= Nanos(seconds)
  {
    if nanos >= 0 then nanos / 1_000_000_000 else -((-nanos) / 1_000_000_000)
  }
}
