/** Microsecond timebase of the ADB host: the constants of adb.c, the wrapping
    u32 difference of `time_us_32()` readings, and the busy-wait poll loop that
    every wait point of a transaction uses.

    The line and the clock are not modelled directly. A wait watches one phase
    of the line (a stretch of time at one level); the phase is given as its
    duration `d` in microseconds, meaning that every poll made up to elapsed
    time `d` still sees the waited-for level and the next poll sees the other. */
module AdbTiming {

  /** Length of one bit cell (ADB_BIT_TIME). */
  const BitTime: nat := 100

  /** Timeout applied at every wait point (ADB_TIMEOUT). */
  const Timeout: nat := 500

  /** A measured high phase shorter than this decodes as bit 1. */
  const HighThreshold: nat := 50

  const U32Modulus: int := 0x1_0000_0000

  /** A reading of the free-running 32-bit microsecond counter. */
  type U32 = x: int | 0 <= x < U32Modulus

  /** The counter `t` microseconds after it read `start`. */
  function Advance(start: U32, t: nat): U32
  {
    (start + t) % U32Modulus
  }

  /** `now - start` computed on uint32_t, which wraps modulo 2^32. */
  function Elapsed(start: U32, now: U32): U32
  {
    (now - start) % U32Modulus
  }

  /** A wait over a phase of `d` microseconds gives up. */
  predicate TimesOut(d: nat)
  {
    d > Timeout
  }

  /** The wrapping difference is the true elapsed time even when the counter
      passes 2^32 between the two readings. */
  lemma ElapsedAcrossWrap(start: U32, t: nat)
    requires t < U32Modulus
    ensures Elapsed(start, Advance(start, t)) == t
  {
    if start + t >= U32Modulus {
      assert Advance(start, t) == start + t - U32Modulus;
      assert Advance(start, t) - start == t - U32Modulus;
    }
  }

  /** One wait loop of adb_host_request: poll while the line keeps its level,
      giving up as soon as the wrapping elapsed time exceeds Timeout. The
      clock reads `start + t` at the poll made at elapsed time `t`; `now` is
      the clock when the loop is left. */
  method BusyWait(start: U32, d: nat) returns (timedOut: bool, now: U32)
    ensures timedOut <==> TimesOut(d)
    ensures !timedOut ==> Elapsed(start, now) == d
  {
    var t: nat := 0;
    while t <= d
      invariant t <= d + 1
      invariant t <= Timeout + 1
      decreases d + 1 - t
    {
      ElapsedAcrossWrap(start, t);
      if Elapsed(start, Advance(start, t)) > Timeout {
        return true, Advance(start, t);
      }
      t := t + 1;
    }
    ElapsedAcrossWrap(start, d);
    return false, Advance(start, d);
  }
}
