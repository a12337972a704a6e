/**
 The arithmetic of cpt_get_current_time_ms: a time-of-day reading of whole
 seconds and microseconds becomes a millisecond count. The reading itself is an
 input; the clock is not part of the model.
 */
module CptUtils {

  const MsPerSecond: nat := 1000
  const UsPerMs: nat := 1000
  const UsPerSecond: nat := 1000000
  /** The modulus of uint64_t, the function's return type. */
  const Uint64Modulus: nat := 0x1_0000_0000_0000_0000

  /**
   C's integer division, which truncates toward zero (section 6.5.5 of ISO C99):
   the remainder takes the sign of the dividend and is smaller than the divisor.
   Dafny's own `/` is Euclidean, so the two differ for a negative dividend.
   */
  function TruncDiv(a: int, b: int): (q: int)
    requires b > 0
    ensures a >= 0 ==> 0 <= a - q * b < b
    ensures a < 0 ==> -b < a - q * b <= 0
  {
    if a >= 0 then a / b else -((-a) / b)
  }

  /**
   The value of `tv_sec * 1000 + tv_usec / 1000`, before conversion to uint64_t:
   whole seconds in milliseconds, plus the microseconds truncated toward zero to
   whole milliseconds.
   */
  function TimeMs(sec: int, usec: int): (ms: int)
    ensures usec >= 0 ==> (ms - sec * MsPerSecond) * UsPerMs <= usec < (ms - sec * MsPerSecond + 1) * UsPerMs
    ensures usec < 0 ==> (ms - sec * MsPerSecond - 1) * UsPerMs < usec <= (ms - sec * MsPerSecond) * UsPerMs
  {
    sec * MsPerSecond + TruncDiv(usec, UsPerMs)
  }

  /** cpt_get_current_time_ms: the millisecond value converted to uint64_t (reduced modulo 2^64). */
  function CurrentTimeMs(sec: int, usec: int): (ms: nat)
    ensures ms < Uint64Modulus
    ensures 0 <= TimeMs(sec, usec) < Uint64Modulus ==> ms == TimeMs(sec, usec)
  {
    TimeMs(sec, usec) % Uint64Modulus
  }

  /** A reading is normalised when its microseconds lie in [0, 1000000). */
  predicate Normalised(sec: int, usec: int)
  {
    0 <= usec < UsPerSecond
  }

  /** Lexicographic order on readings: seconds first, then microseconds. */
  predicate NotLater(s1: int, u1: int, s2: int, u2: int)
  {
    s1 < s2 || (s1 == s2 && u1 <= u2)
  }

  /** Sub-millisecond microseconds are truncated away. */
  lemma SubMillisecondIgnored(sec: int, usec: int)
    requires 0 <= usec < UsPerMs
    ensures TimeMs(sec, usec) == sec * MsPerSecond
  {
  }

  /**
   For a normalised reading the microsecond term lies in [0, 999], so the value
   before conversion, divided by 1000 and rounded down, gives back the seconds.
   For non-negative seconds and no wrap-around, C's division of the returned
   uint64_t by 1000 gives them back too.
   */
  lemma SecondsRecovered(sec: int, usec: int)
    requires Normalised(sec, usec)
    ensures 0 <= TimeMs(sec, usec) - sec * MsPerSecond <= 999
    ensures TimeMs(sec, usec) / MsPerSecond == sec
    ensures 0 <= sec && TimeMs(sec, usec) < Uint64Modulus ==> CurrentTimeMs(sec, usec) / MsPerSecond == sec
  {
  }

  /**
   An independent reading of the same quantity: for a normalised reading the
   result is the total elapsed microseconds in whole milliseconds, rounded down.
   */
  lemma TimeMsIsFloorOfMicroseconds(sec: int, usec: int)
    requires Normalised(sec, usec)
    ensures TimeMs(sec, usec) == (sec * UsPerSecond + usec) / UsPerMs
  {
  }

  /**
   The conversion is monotone on normalised readings: a reading that is not
   earlier never yields a smaller millisecond count.
   */
  lemma TimeMsMonotone(s1: int, u1: int, s2: int, u2: int)
    requires Normalised(s1, u1) && Normalised(s2, u2)
    requires NotLater(s1, u1, s2, u2)
    ensures TimeMs(s1, u1) <= TimeMs(s2, u2)
  {
  }

  /**
   What a caller measures as `end - start` in uint64_t is the true difference, and
   is never negative, when both readings are normalised, ordered and small enough
   for the uint64_t result not to wrap.
   */
  lemma ElapsedNonNegative(s1: int, u1: int, s2: int, u2: int)
    requires Normalised(s1, u1) && Normalised(s2, u2)
    requires NotLater(s1, u1, s2, u2)
    requires 0 <= s1
    requires TimeMs(s2, u2) < Uint64Modulus
    ensures CurrentTimeMs(s1, u1) <= CurrentTimeMs(s2, u2)
    ensures CurrentTimeMs(s2, u2) - CurrentTimeMs(s1, u1) == TimeMs(s2, u2) - TimeMs(s1, u1)
  {
  }
}
