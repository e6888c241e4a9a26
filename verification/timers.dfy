/** The delay `setTimeout` actually waits. The HTML standard converts the
    timeout argument to a signed 32-bit integer (Web IDL `long`, wrapping
    modulo 2^32) and treats a negative result as 0, so a delay of 2^31 ms
    or more wraps round and usually fires at once. */
module Timers {
  const TwoTo31: int := 0x8000_0000
  const TwoTo32: int := 0x1_0000_0000

  /** Web IDL's `long` conversion of an integer: wrap into -2^31..2^31-1. */
  function ToInt32(v: int): (r: int)
    ensures -TwoTo31 <= r < TwoTo31
    ensures 0 <= v < TwoTo31 ==> r == v
  {
    var m := v % TwoTo32;
    if m >= TwoTo31 then m - TwoTo32 else m
  }

  function Wait(delay: int): (w: nat)
    ensures w < TwoTo31
    ensures 0 <= delay < TwoTo31 ==> w == delay
    ensures -TwoTo31 <= delay < 0 ==> w == 0
    ensures TwoTo31 <= delay < TwoTo32 ==> w == 0
  {
    var t := ToInt32(delay);
    if t < 0 then 0 else t
  }

  /** The conversion only wraps: its result differs from the input by a
      multiple of 2^32. Kept apart from `ToInt32`'s contract so that callers
      do not carry the modular arithmetic. */
  lemma ToInt32Wraps(v: int)
    ensures (ToInt32(v) - v) % TwoTo32 == 0
  {
  }

  /** A wait that is not 0 is the delay taken modulo 2^32. */
  lemma WaitWraps(delay: int)
    ensures Wait(delay) == 0 || (Wait(delay) - delay) % TwoTo32 == 0
    ensures Wait(delay) > 0 ==> Wait(delay) == ToInt32(delay)
  {
    ToInt32Wraps(delay);
  }
}
