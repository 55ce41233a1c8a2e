/**
  The conversion from an absolute expiration to the relative delay that is
  programmed into the kernel timer descriptor (`howMuchTimeFromNow`).

  Timestamps are signed 64-bit microsecond counts; the subtraction of two of
  them is only defined when the difference fits in 64 bits, so that is the
  one thing the conversion asks of its caller.  The delay is never positive
  by accident: every delay below 100 microseconds is raised to 100, so the
  descriptor is always armed (a zero `it_value` would disarm it).
 */
module TimeSpecs {

  const MicroSecondsPerSecond: int := 1_000_000
  const NanoSecondsPerMicroSecond: int := 1000
  /** The smallest delay ever programmed, in microseconds. */
  const MinDelay: int := 100

  /** `struct timespec`: whole seconds plus the nanoseconds beyond them. */
  datatype TimeSpec = TimeSpec(tvSec: int, tvNsec: int)

  predicate IsInt64(x: int) {
    -0x8000_0000_0000_0000 <= x < 0x8000_0000_0000_0000
  }

  /** A timespec the kernel accepts and that is a whole number of microseconds. */
  predicate Normalized(ts: TimeSpec) {
    0 <= ts.tvSec && 0 <= ts.tvNsec < MicroSecondsPerSecond * NanoSecondsPerMicroSecond
    && ts.tvNsec % NanoSecondsPerMicroSecond == 0
  }

  /** The delay, in microseconds, that a timespec stands for. */
  function ToMicros(ts: TimeSpec): int {
    ts.tvSec * MicroSecondsPerSecond + ts.tvNsec / NanoSecondsPerMicroSecond
  }

  function Max(a: int, b: int): int {
    if a < b then b else a
  }

  /**
    The delay until `when`, seen at time `now`, clamped from below to
    `MinDelay` and split into seconds and nanoseconds.  The clamped value is
    positive, so Dafny's Euclidean `/` and `%` agree with C's truncating ones.
   */
  function HowMuchTimeFromNow(when: int, now: int): (ts: TimeSpec)
    requires IsInt64(when) && IsInt64(now) && IsInt64(when - now)
    ensures Normalized(ts)
    ensures ToMicros(ts) == Max(when - now, MinDelay)
  {
    var microseconds := when - now;
    var microseconds := if microseconds < MinDelay then MinDelay else microseconds;
    TimeSpec(microseconds / MicroSecondsPerSecond,
             (microseconds % MicroSecondsPerSecond) * NanoSecondsPerMicroSecond)
  }

  /** The descriptor fires exactly at `when` if that is at least 100 microseconds away, and 100 microseconds from now otherwise. */
  lemma DelayIsExactOrClamped(when: int, now: int)
    requires IsInt64(when) && IsInt64(now) && IsInt64(when - now)
    ensures when - now >= MinDelay ==> now + ToMicros(HowMuchTimeFromNow(when, now)) == when
    ensures when - now < MinDelay ==> ToMicros(HowMuchTimeFromNow(when, now)) == MinDelay
  {
  }

  /** A later deadline is never armed with a shorter delay. */
  lemma DelayMonotonic(when1: int, when2: int, now: int)
    requires IsInt64(when1) && IsInt64(when2) && IsInt64(now)
    requires IsInt64(when1 - now) && IsInt64(when2 - now)
    requires when1 <= when2
    ensures ToMicros(HowMuchTimeFromNow(when1, now)) <= ToMicros(HowMuchTimeFromNow(when2, now))
  {
  }

  /**
    A normalized timespec is determined by the delay it stands for: any
    normalized timespec denoting the clamped delay is the one computed.
   */
  lemma NormalizedIsUnique(ts: TimeSpec, when: int, now: int)
    requires IsInt64(when) && IsInt64(now) && IsInt64(when - now)
    requires Normalized(ts)
    requires ToMicros(ts) == Max(when - now, MinDelay)
    ensures ts == HowMuchTimeFromNow(when, now)
  {
  }
}
