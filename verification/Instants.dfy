/** Clock readings: nanoseconds, as integers. Token claims carry whole seconds. */
module Instants {

  function Nanos(secs: int): int {
    secs * 1_000_000_000
  }

  // Truncation to the whole second, rounding down before the epoch too.
  function Seconds(instant: int): int {
    instant / 1_000_000_000
  }

  // A second has a thousand million of them, and the second of an instant is the one it falls in.
  lemma SecondsExactly(instant: int, secs: int)
    ensures Seconds(instant) == secs <==> secs * 1_000_000_000 <= instant < (secs + 1) * 1_000_000_000
    ensures Nanos(secs) == secs * 1_000_000_000 && Seconds(Nanos(secs)) == secs
  {
  }

  // `Instant::duration_since` and `Instant::elapsed` saturate at zero.
  function Elapsed(since: int, now: int): nat {
    if now >= since then now - since else 0
  }
}
